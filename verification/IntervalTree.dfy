/** A centered interval tree: built by splitting a vector around a middle point, searched with pruning, and
    answering every query exactly as a linear filter over the vector would. */
module IntervalTree {

  const SIZE_MAX: nat := 0xffff_ffff_ffff_ffff

  /** A position on the screen; positions are ordered by row and then by column. */
  datatype Point = Point(x: int, y: int) {
    predicate Lt(p: Point) {
      y < p.y || (y == p.y && x < p.x)
    }

    predicate Le(p: Point) {
      y < p.y || (y == p.y && x <= p.x)
    }
  }

  const ORIGIN: Point := Point(0, 0)

  datatype Interval = Interval(start: Point, stop: Point, value: int)

  /** `Nil` is the null child pointer. */
  datatype Tree = Nil | Node(intervals: seq<Interval>, left: Tree, right: Tree, center: Point)

  datatype Query = Overlapping | Contained

  /** What the constructor of an interval establishes. */
  ghost predicate WellFormed(s: seq<Interval>) {
    forall i :: 0 <= i < |s| ==> s[i].start.Le(s[i].stop)
  }

  ghost predicate SortedByStart(s: seq<Interval>) {
    forall i, j :: 0 <= i < j < |s| ==> s[i].start.Le(s[j].start)
  }

  /** The two filters applied to visited intervals. */
  ghost predicate Keeps(q: Query, start: Point, stop: Point, x: Interval) {
    match q
    case Overlapping => start.Le(x.stop) && x.start.Le(stop)
    case Contained => start.Le(x.start) && x.stop.Le(stop)
  }

  /** Overlapping is having a point in common, contained is having no point outside. */
  lemma KeepsMeans(start: Point, stop: Point, x: Interval)
    requires x.start.Le(x.stop) && start.Le(stop)
    ensures Keeps(Overlapping, start, stop, x) <==>
            exists p {:trigger x.start.Le(p)} :: x.start.Le(p) && p.Le(x.stop) && start.Le(p) && p.Le(stop)
    ensures Keeps(Contained, start, stop, x) <==>
            forall p {:trigger x.start.Le(p)} :: x.start.Le(p) && p.Le(x.stop) ==> start.Le(p) && p.Le(stop)
  {
    if Keeps(Overlapping, start, stop, x) {
      var p := if x.start.Le(start) then start else x.start;
      assert x.start.Le(p) && p.Le(x.stop) && start.Le(p) && p.Le(stop);
    }
    assert x.start.Le(x.start) && x.start.Le(x.stop);
  }

  /** The linear filter that a search has to agree with. */
  ghost function Select(s: seq<Interval>, q: Query, start: Point, stop: Point): seq<Interval> {
    if s == [] then []
    else (if Keeps(q, start, stop, s[0]) then [s[0]] else []) + Select(s[1..], q, start, stop)
  }

  ghost function Contents(t: Tree): multiset<Interval> {
    if t.Nil? then multiset{} else Contents(t.left) + multiset(t.intervals) + Contents(t.right)
  }

  /** The shape every search relies on. */
  ghost predicate IsIndex(t: Tree) {
    t.Node? ==>
      && IsIndex(t.left) && IsIndex(t.right)
      && SortedByStart(t.intervals) && WellFormed(t.intervals)
      && (forall x :: x in Contents(t.left) ==> x.start.Le(x.stop) && x.stop.Lt(t.center))
      && (forall x :: x in Contents(t.right) ==> t.center.Lt(x.start) && x.start.Le(x.stop))
  }

  // ---------------------------------------------------------------------------------------
  // Building
  // ---------------------------------------------------------------------------------------

  /** Integer division by two that rounds toward zero. */
  function Half(n: int): (h: int)
    ensures n >= 0 ==> 2 * h <= n <= 2 * h + 1
    ensures n < 0 ==> 2 * h - 1 <= n <= 2 * h
  {
    if n >= 0 then n / 2 else -(-n / 2)
  }

  /** The center of two points is taken coordinate by coordinate. */
  ghost function Middle(a: Point, b: Point): Point {
    Point(Half(a.x + b.x), Half(a.y + b.y))
  }

  ghost predicate FirstStart(s: seq<Interval>, v: Point) {
    (exists i :: 0 <= i < |s| && s[i].start == v) && forall i :: 0 <= i < |s| ==> v.Le(s[i].start)
  }

  ghost predicate LastStop(s: seq<Interval>, v: Point) {
    (exists i :: 0 <= i < |s| && s[i].stop == v) && forall i :: 0 <= i < |s| ==> s[i].stop.Le(v)
  }

  method Extremes(s: seq<Interval>) returns (minStart: Point, maxStop: Point)
    requires s != []
    ensures FirstStart(s, minStart) && LastStop(s, maxStop)
  {
    minStart, maxStop := s[0].start, s[0].stop;
    var n := 1;
    while n < |s|
      invariant 1 <= n <= |s|
      invariant (exists i :: 0 <= i < n && s[i].start == minStart) && forall i :: 0 <= i < n ==> minStart.Le(s[i].start)
      invariant (exists i :: 0 <= i < n && s[i].stop == maxStop) && forall i :: 0 <= i < n ==> s[i].stop.Le(maxStop)
    {
      if s[n].start.Lt(minStart) {
        minStart := s[n].start;
      }
      if maxStop.Lt(s[n].stop) {
        maxStop := s[n].stop;
      }
      n := n + 1;
    }
  }

  /** Where a sorted sequence takes the next element. */
  method Rank(r: seq<Interval>, e: Interval) returns (q: nat)
    requires SortedByStart(r)
    ensures q <= |r|
    ensures SortedByStart(r[..q] + [e] + r[q..])
  {
    q := 0;
    while q < |r| && r[q].start.Le(e.start)
      invariant q <= |r|
      invariant forall i :: 0 <= i < q ==> r[i].start.Le(e.start)
    {
      q := q + 1;
    }
  }

  /** Any sorting routine: the order of intervals with equal starts is not fixed. */
  method Sort(s: seq<Interval>) returns (r: seq<Interval>)
    ensures SortedByStart(r) && multiset(r) == multiset(s)
  {
    hide SortedByStart;
    r := [];
    assert SortedByStart(r) by {
      EmptyIsSorted();
    }
    var n := 0;
    while n < |s|
      invariant n <= |s| && SortedByStart(r) && multiset(r) == multiset(s[..n])
    {
      var q := Rank(r, s[n]);
      assert s[..n + 1] == s[..n] + [s[n]];
      assert r == r[..q] + r[q..];
      r := r[..q] + [s[n]] + r[q..];
      n := n + 1;
    }
    assert s[..n] == s;
  }

  lemma EmptyIsSorted()
    ensures SortedByStart([])
  {
  }

  /** The partition loop of the constructor: three subsequences, in the original order. */
  method Partition(s: seq<Interval>, center: Point)
    returns (lefts: seq<Interval>, mids: seq<Interval>, rights: seq<Interval>)
    requires SortedByStart(s)
    ensures SortedByStart(lefts) && SortedByStart(mids) && SortedByStart(rights)
    ensures multiset(lefts) + multiset(mids) + multiset(rights) == multiset(s)
    ensures forall i :: 0 <= i < |lefts| ==> lefts[i].stop.Lt(center)
    ensures forall i :: 0 <= i < |rights| ==> center.Lt(rights[i].start) && center.Le(rights[i].stop)
    ensures forall i :: 0 <= i < |mids| ==> mids[i].start.Le(center) && center.Le(mids[i].stop)
  {
    hide Upto, SortedByStart, Dealt;
    lefts, mids, rights := [], [], [];
    UptoEmpty(s);
    DealtNone(s);
    var n := 0;
    while n < |s|
      invariant n <= |s|
      invariant Dealt(lefts, mids, rights, s, n)
      invariant Upto(lefts, s, n) && Upto(mids, s, n) && Upto(rights, s, n)
      invariant forall i :: 0 <= i < |lefts| ==> lefts[i].stop.Lt(center)
      invariant forall i :: 0 <= i < |rights| ==> center.Lt(rights[i].start) && center.Le(rights[i].stop)
      invariant forall i :: 0 <= i < |mids| ==> mids[i].start.Le(center) && center.Le(mids[i].stop)
    {
      DealtNext(lefts, mids, rights, s, n);
      UptoNext(lefts, s, n);
      UptoNext(mids, s, n);
      UptoNext(rights, s, n);
      if s[n].stop.Lt(center) {
        lefts := lefts + [s[n]];
      } else if center.Lt(s[n].start) {
        rights := rights + [s[n]];
      } else {
        mids := mids + [s[n]];
      }
      n := n + 1;
    }
    DealtAll(lefts, mids, rights, s);
    UptoIsSorted(lefts, s, n);
    UptoIsSorted(mids, s, n);
    UptoIsSorted(rights, s, n);
  }

  /** The first `n` elements of `s` are spread over three sequences. */
  ghost predicate Dealt(a: seq<Interval>, b: seq<Interval>, c: seq<Interval>, s: seq<Interval>, n: nat)
    requires n <= |s|
  {
    multiset(a) + multiset(b) + multiset(c) == multiset(s[..n])
  }

  lemma DealtNone(s: seq<Interval>)
    ensures Dealt([], [], [], s, 0)
  {
  }

  lemma DealtNext(a: seq<Interval>, b: seq<Interval>, c: seq<Interval>, s: seq<Interval>, n: nat)
    requires n < |s| && Dealt(a, b, c, s, n)
    ensures Dealt(a + [s[n]], b, c, s, n + 1) && Dealt(a, b + [s[n]], c, s, n + 1) && Dealt(a, b, c + [s[n]], s, n + 1)
  {
    assert s[..n + 1] == s[..n] + [s[n]];
  }

  lemma DealtAll(a: seq<Interval>, b: seq<Interval>, c: seq<Interval>, s: seq<Interval>)
    requires Dealt(a, b, c, s, |s|)
    ensures multiset(a) + multiset(b) + multiset(c) == multiset(s)
  {
    assert s[..|s|] == s;
  }

  lemma UptoEmpty(s: seq<Interval>)
    ensures Upto([], s, 0)
  {
  }

  lemma UptoNext(part: seq<Interval>, s: seq<Interval>, n: nat)
    requires n < |s| && SortedByStart(s) && Upto(part, s, n)
    ensures Upto(part, s, n + 1) && Upto(part + [s[n]], s, n + 1)
  {
  }

  lemma UptoIsSorted(part: seq<Interval>, s: seq<Interval>, n: nat)
    requires n <= |s| && Upto(part, s, n)
    ensures SortedByStart(part)
  {
  }

  /** Sorted, and nothing starts after what is still to come. */
  ghost predicate Upto(part: seq<Interval>, s: seq<Interval>, n: nat)
    requires n <= |s|
  {
    && SortedByStart(part)
    && forall i, j :: 0 <= i < |part| && n <= j < |s| ==> part[i].start.Le(s[j].start)
  }

  /** The one way to fail: an empty vector that is not put into a bucket, without extents, whose first interval is then
      looked at. */
  ghost predicate LooksAtNothing(ivals: seq<Interval>, depth: nat, minBucket: nat, maxBucket: nat,
                           leftExtent: Point, rightExtent: Point)
  {
    ivals == [] && depth != 1 && (minBucket == 0 || maxBucket == 0) && leftExtent == ORIGIN && rightExtent == ORIGIN
  }

  /** The shape of the tree: at the last level, or with fewer intervals than both bucket sizes, all of them stay in one node;
      otherwise the center is the middle of the first start and the last stop, the intervals across it stay, and each side
      is a tree of its own, unless it has none. */
  ghost predicate Shaped(t: Tree, level: nat, minBucket: nat, maxBucket: nat)
    decreases t
  {
    && t.Node?
    && Centered(Contents(t), t.center)
    && if level == 0 || (|Contents(t)| < minBucket && |Contents(t)| < maxBucket) then t.left.Nil? && t.right.Nil?
       else
         && (forall i :: 0 <= i < |t.intervals| ==> t.intervals[i].start.Le(t.center) && t.center.Le(t.intervals[i].stop))
         && (t.left.Nil? || (Contents(t.left) != multiset{} && Shaped(t.left, level - 1, minBucket, maxBucket)))
         && (t.right.Nil? || (Contents(t.right) != multiset{} && Shaped(t.right, level - 1, minBucket, maxBucket)))
  }

  ghost predicate FirstIn(m: multiset<Interval>, v: Point) {
    (exists x :: x in m && x.start == v) && forall x :: x in m ==> v.Le(x.start)
  }

  ghost predicate LastIn(m: multiset<Interval>, v: Point) {
    (exists x :: x in m && x.stop == v) && forall x :: x in m ==> x.stop.Le(v)
  }

  /** The center of the node is what the constructor computes it to be. */
  lemma CenterOf(s: seq<Interval>, m: multiset<Interval>, minStart: Point, maxStop: Point)
    requires m == multiset(s) && FirstStart(s, minStart) && LastStop(s, maxStop)
    ensures forall a, b :: FirstIn(m, a) && LastIn(m, b) ==> Middle(a, b) == Middle(minStart, maxStop)
  {
    forall a, b | FirstIn(m, a) && LastIn(m, b)
      ensures a == minStart && b == maxStop
    {
      var x :| x in m && x.start == a;
      var y :| y in m && y.stop == b;
      var i :| 0 <= i < |s| && s[i].start == minStart;
      var j :| 0 <= j < |s| && s[j].stop == maxStop;
      assert x in s && y in s && s[i] in m && s[j] in m;
    }
  }

  /** The building constructor, for every depth (0 wraps around) and all bucket sizes. Only a first call may omit
      the extents. */
  method Build(ivals: seq<Interval>, depth: nat, minBucket: nat, maxBucket: nat, leftExtent: Point, rightExtent: Point)
    returns (t: Tree)
    requires WellFormed(ivals)
    requires (leftExtent == ORIGIN && rightExtent == ORIGIN) || SortedByStart(ivals)
    requires !LooksAtNothing(ivals, depth, minBucket, maxBucket, leftExtent, rightExtent)
    ensures IsIndex(t) && Contents(t) == multiset(ivals)
    ensures Shaped(t, if depth == 0 then SIZE_MAX else depth - 1, minBucket, maxBucket)
  {
    t := BuildBelow(ivals, if depth == 0 then SIZE_MAX else depth - 1, minBucket, maxBucket, leftExtent, rightExtent);
  }

  /** The constructor after it has counted down the depth, which alone is what ends it. */
  method BuildBelow(ivals: seq<Interval>, level: nat, minBucket: nat, maxBucket: nat, leftExtent: Point, rightExtent: Point)
    returns (t: Tree)
    requires WellFormed(ivals)
    requires (leftExtent == ORIGIN && rightExtent == ORIGIN) || SortedByStart(ivals)
    requires !LooksAtNothing(ivals, level + 1, minBucket, maxBucket, leftExtent, rightExtent)
    ensures IsIndex(t) && Contents(t) == multiset(ivals) && Shaped(t, level, minBucket, maxBucket)
    decreases level, 1
  {
    hide SortedByStart, WellFormed, IsIndex, Contents, Shaped, Centered;
    var center, maxStop := Center(ivals);
    var sorted := ivals;
    if leftExtent == ORIGIN && rightExtent == ORIGIN {
      sorted := Sort(ivals);
    }
    SameElements(ivals, sorted);
    if level == 0 || (|sorted| < minBucket && |sorted| < maxBucket) {
      t := Bucket(sorted, center, level, minBucket, maxBucket);
      return;
    }
    var leftp, rightp := leftExtent, rightExtent;
    if leftExtent == ORIGIN && rightExtent == ORIGIN {
      leftp, rightp := sorted[0].start, maxStop;
    }
    t := Split(sorted, center, level, minBucket, maxBucket, leftp, rightp);
  }

  /** The last level, or few intervals: one node keeps them all. */
  method Bucket(sorted: seq<Interval>, center: Point, level: nat, minBucket: nat, maxBucket: nat) returns (t: Tree)
    requires WellFormed(sorted) && Centered(multiset(sorted), center)
    requires level == 0 || (|sorted| < minBucket && |sorted| < maxBucket)
    ensures IsIndex(t) && Contents(t) == multiset(sorted) && Shaped(t, level, minBucket, maxBucket)
  {
    hide SortedByStart, WellFormed, IsIndex, Contents, Shaped, Centered;
    var bucket := Sort(sorted);
    SameElements(sorted, bucket);
    NilIsIndex();
    EmptyIsWellFormed();
    NodeIsIndex([], bucket, [], Nil, Nil, center);
    t := Node(bucket, Nil, Nil, center);
    AsBucket(t, sorted, level, minBucket, maxBucket);
  }

  /** The center splits the intervals, and each side becomes a tree with the center as one of its extents. */
  method Split(sorted: seq<Interval>, center: Point, level: nat, minBucket: nat, maxBucket: nat, leftp: Point, rightp: Point)
    returns (t: Tree)
    requires WellFormed(sorted) && SortedByStart(sorted) && Centered(multiset(sorted), center)
    requires level > 0 && (|sorted| >= minBucket || |sorted| >= maxBucket)
    ensures IsIndex(t) && Contents(t) == multiset(sorted) && Shaped(t, level, minBucket, maxBucket)
    decreases level, 0
  {
    hide SortedByStart, WellFormed, IsIndex, Contents, Shaped, Centered;
    var lefts, mids, rights := Partition(sorted, center);
    PartsAreWellFormed(sorted, lefts, mids, rights);
    var left, right := Nil, Nil;
    NilIsIndex();
    if lefts != [] {
      left := BuildBelow(lefts, level - 1, minBucket, maxBucket, leftp, center);
    }
    if rights != [] {
      right := BuildBelow(rights, level - 1, minBucket, maxBucket, center, rightp);
    }
    NodeIsIndex(lefts, mids, rights, left, right, center);
    t := Node(mids, left, right, center);
    AsSplit(t, sorted, lefts, rights, level, minBucket, maxBucket);
  }

  method Center(ivals: seq<Interval>) returns (center: Point, maxStop: Point)
    ensures Centered(multiset(ivals), center)
    ensures ivals == [] ==> center == ORIGIN
    ensures ivals != [] ==> LastStop(ivals, maxStop)
  {
    hide Centered, FirstStart, LastStop;
    center, maxStop := ORIGIN, ORIGIN;
    if ivals != [] {
      var minStart;
      minStart, maxStop := Extremes(ivals);
      center := Point(Half(minStart.x + maxStop.x), Half(minStart.y + maxStop.y));
      CenteredAt(ivals, minStart, maxStop, center);
    } else {
      NotCentered(ivals, center);
    }
  }

  /** The middle of the first start and the last stop, if there are any. */
  ghost predicate Centered(m: multiset<Interval>, center: Point) {
    forall a, b :: FirstIn(m, a) && LastIn(m, b) ==> center == Middle(a, b)
  }

  lemma CenteredAt(s: seq<Interval>, minStart: Point, maxStop: Point, center: Point)
    requires FirstStart(s, minStart) && LastStop(s, maxStop)
    requires center == Point(Half(minStart.x + maxStop.x), Half(minStart.y + maxStop.y))
    ensures Centered(multiset(s), center)
  {
    CenterOf(s, multiset(s), minStart, maxStop);
  }

  lemma NotCentered(s: seq<Interval>, center: Point)
    requires s == []
    ensures Centered(multiset(s), center)
  {
  }

  lemma AsBucket(t: Tree, ivals: seq<Interval>, level: nat, minBucket: nat, maxBucket: nat)
    requires t.Node? && t.left.Nil? && t.right.Nil? && Contents(t) == multiset(ivals) && Centered(multiset(ivals), t.center)
    requires level == 0 || (|ivals| < minBucket && |ivals| < maxBucket)
    ensures Shaped(t, level, minBucket, maxBucket)
  {
    assert |multiset(ivals)| == |ivals|;
  }

  lemma AsSplit(t: Tree, ivals: seq<Interval>, lefts: seq<Interval>, rights: seq<Interval>, level: nat, minBucket: nat, maxBucket: nat)
    requires t.Node? && Contents(t) == multiset(ivals) && Centered(multiset(ivals), t.center)
    requires !(level == 0 || (|ivals| < minBucket && |ivals| < maxBucket))
    requires forall i :: 0 <= i < |t.intervals| ==> t.intervals[i].start.Le(t.center) && t.center.Le(t.intervals[i].stop)
    requires t.left.Nil? || (lefts != [] && Contents(t.left) == multiset(lefts) && Shaped(t.left, level - 1, minBucket, maxBucket))
    requires t.right.Nil? || (rights != [] && Contents(t.right) == multiset(rights) && Shaped(t.right, level - 1, minBucket, maxBucket))
    ensures Shaped(t, level, minBucket, maxBucket)
  {
    hide Contents;
    assert |multiset(ivals)| == |ivals| && |multiset(lefts)| == |lefts| && |multiset(rights)| == |rights|;
  }

  lemma SameElements(a: seq<Interval>, b: seq<Interval>)
    requires multiset(a) == multiset(b)
    ensures |a| == |b|
    ensures WellFormed(a) ==> WellFormed(b)
  {
    assert |multiset(a)| == |a| && |multiset(b)| == |b|;
    forall i | 0 <= i < |b| && WellFormed(a)
      ensures b[i].start.Le(b[i].stop)
    {
      assert b[i] in multiset(b);
      assert b[i] in a;
    }
  }

  lemma PartsAreWellFormed(s: seq<Interval>, lefts: seq<Interval>, mids: seq<Interval>, rights: seq<Interval>)
    requires WellFormed(s) && multiset(lefts) + multiset(mids) + multiset(rights) == multiset(s)
    ensures WellFormed(lefts) && WellFormed(mids) && WellFormed(rights)
    ensures |lefts| + |mids| + |rights| == |s|
  {
    assert |multiset(s)| == |s|;
    forall x | x in lefts || x in mids || x in rights
      ensures x.start.Le(x.stop)
    {
      assert x in multiset(lefts) + multiset(mids) + multiset(rights);
      assert x in s;
    }
  }

  /** A split makes progress, that is, neither side takes all intervals, exactly when the center lies between the first
      start and the last stop. */
  lemma ProgressIff(s: seq<Interval>, lefts: seq<Interval>, mids: seq<Interval>, rights: seq<Interval>,
                    minStart: Point, maxStop: Point, center: Point)
    requires s != [] && WellFormed(s) && multiset(lefts) + multiset(mids) + multiset(rights) == multiset(s)
    requires FirstStart(s, minStart) && LastStop(s, maxStop)
    requires forall i :: 0 <= i < |lefts| ==> lefts[i].stop.Lt(center)
    requires forall i :: 0 <= i < |rights| ==> center.Lt(rights[i].start)
    requires forall i :: 0 <= i < |mids| ==> mids[i].start.Le(center) && center.Le(mids[i].stop)
    ensures |lefts| < |s| && |rights| < |s| <==> minStart.Le(center) && center.Le(maxStop)
  {
    assert |s| == |multiset(s)| == |lefts| + |mids| + |rights|;
    var i :| 0 <= i < |s| && s[i].stop == maxStop;
    var j :| 0 <= j < |s| && s[j].start == minStart;
    assert s[i] in multiset(s) && s[j] in multiset(s);
    assert s[i] in lefts || s[i] in mids || s[i] in rights;
    assert s[j] in lefts || s[j] in mids || s[j] in rights;
    forall x | x in lefts || x in mids || x in rights
      ensures x in s
    {
      assert x in multiset(lefts) + multiset(mids) + multiset(rights);
    }
    if center.Lt(minStart) {
      AllRight(s, lefts, mids, minStart, center);
    } else if maxStop.Lt(center) {
      AllLeft(s, mids, rights, maxStop, center);
    }
  }

  lemma AllRight(s: seq<Interval>, lefts: seq<Interval>, mids: seq<Interval>, minStart: Point, center: Point)
    requires WellFormed(s) && FirstStart(s, minStart) && center.Lt(minStart)
    requires (forall x :: x in lefts ==> x in s) && (forall x :: x in mids ==> x in s)
    requires forall i :: 0 <= i < |lefts| ==> lefts[i].stop.Lt(center)
    requires forall i :: 0 <= i < |mids| ==> mids[i].start.Le(center) && center.Le(mids[i].stop)
    ensures lefts == [] && mids == []
  {
    hide WellFormed, FirstStart;
    if lefts != [] {
      Starts(s, lefts[0], minStart);
    }
    if mids != [] {
      Starts(s, mids[0], minStart);
    }
  }

  lemma Starts(s: seq<Interval>, x: Interval, minStart: Point)
    requires WellFormed(s) && FirstStart(s, minStart) && x in s
    ensures minStart.Le(x.start) && x.start.Le(x.stop)
  {
  }

  lemma AllLeft(s: seq<Interval>, mids: seq<Interval>, rights: seq<Interval>, maxStop: Point, center: Point)
    requires WellFormed(s) && LastStop(s, maxStop) && maxStop.Lt(center)
    requires (forall x :: x in mids ==> x in s) && (forall x :: x in rights ==> x in s)
    requires forall i :: 0 <= i < |rights| ==> center.Lt(rights[i].start)
    requires forall i :: 0 <= i < |mids| ==> mids[i].start.Le(center) && center.Le(mids[i].stop)
    ensures mids == [] && rights == []
  {
    hide WellFormed, LastStop;
    if rights != [] {
      Stops(s, rights[0], maxStop);
    }
    if mids != [] {
      Stops(s, mids[0], maxStop);
    }
  }

  lemma Stops(s: seq<Interval>, x: Interval, maxStop: Point)
    requires WellFormed(s) && LastStop(s, maxStop) && x in s
    ensures x.start.Le(x.stop) && x.stop.Le(maxStop)
  {
  }

  /** On the screen that is so unless the last stop is one row below the first start and left of it. */
  lemma MiddleBetweenIff(a: Point, b: Point)
    requires a.Le(b) && 0 <= a.x && 0 <= a.y && 0 <= b.x
    ensures a.Le(Middle(a, b)) && Middle(a, b).Le(b) <==> !(b.y == a.y + 1 && b.x < a.x)
  {
  }

  /** An interval that wraps from the right of one row to the left of the next lies wholly behind its own center, so it goes
      to the right every time: only the depth ends the construction. */
  lemma WrappedGoesRightForever()
    ensures var wrapped := Interval(Point(9, 0), Point(0, 1), 0);
            && WellFormed([wrapped]) && FirstStart([wrapped], Point(9, 0)) && LastStop([wrapped], Point(0, 1))
            && Middle(Point(9, 0), Point(0, 1)) == Point(4, 0)
            && !wrapped.stop.Lt(Point(4, 0)) && Point(4, 0).Lt(wrapped.start)
  {
    var wrapped := Interval(Point(9, 0), Point(0, 1), 0);
    assert [wrapped][0] == wrapped;
  }

  lemma EmptyIsWellFormed()
    ensures WellFormed([])
  {
  }

  lemma NilIsIndex()
    ensures IsIndex(Nil) && Contents(Nil) == multiset([])
  {
  }

  lemma NodeIsIndex(lefts: seq<Interval>, mids: seq<Interval>, rights: seq<Interval>, left: Tree, right: Tree, center: Point)
    requires WellFormed(lefts) && WellFormed(mids) && WellFormed(rights) && SortedByStart(mids)
    requires IsIndex(left) && Contents(left) == multiset(lefts)
    requires IsIndex(right) && Contents(right) == multiset(rights)
    requires forall i :: 0 <= i < |lefts| ==> lefts[i].stop.Lt(center)
    requires forall i :: 0 <= i < |rights| ==> center.Lt(rights[i].start)
    ensures IsIndex(Node(mids, left, right, center))
    ensures Contents(Node(mids, left, right, center)) == multiset(lefts) + multiset(mids) + multiset(rights)
  {
    forall x | x in Contents(left)
      ensures x.start.Le(x.stop) && x.stop.Lt(center)
    {
      assert x in lefts;
    }
    forall x | x in Contents(right)
      ensures center.Lt(x.start) && x.start.Le(x.stop)
    {
      assert x in rights;
    }
  }

  // ---------------------------------------------------------------------------------------
  // Searching
  // ---------------------------------------------------------------------------------------

  /** `r` is `acc` followed, in some order, by exactly the matching elements of `m`. */
  ghost predicate Adds(r: seq<Interval>, acc: seq<Interval>, m: multiset<Interval>, q: Query, start: Point, stop: Point) {
    forall x :: multiset(r)[x] == multiset(acc)[x] + if Keeps(q, start, stop, x) then m[x] else 0
  }

  lemma AddsNothing(acc: seq<Interval>, m: multiset<Interval>, q: Query, start: Point, stop: Point)
    requires forall x :: x in m ==> !Keeps(q, start, stop, x)
    ensures Adds(acc, acc, m, q, start, stop)
  {
    forall x
      ensures Keeps(q, start, stop, x) ==> m[x] == 0
    {
      if x in m {
        assert !Keeps(q, start, stop, x);
      }
    }
  }

  lemma AddsThrice(r0: seq<Interval>, r1: seq<Interval>, r2: seq<Interval>, r3: seq<Interval>,
                   a: multiset<Interval>, b: multiset<Interval>, c: multiset<Interval>, q: Query, start: Point, stop: Point)
    requires Adds(r1, r0, b, q, start, stop) && Adds(r2, r1, a, q, start, stop) && Adds(r3, r2, c, q, start, stop)
    ensures Adds(r3, r0, a + b + c, q, start, stop)
  {
  }

  /** The intervals of one node, with the filter applied to each. */
  method Push(s: seq<Interval>, q: Query, start: Point, stop: Point, acc: seq<Interval>) returns (r: seq<Interval>)
    ensures Adds(r, acc, multiset(s), q, start, stop)
  {
    r := acc;
    var n := 0;
    while n < |s|
      invariant n <= |s| && Adds(r, acc, multiset(s[..n]), q, start, stop)
    {
      assert s[..n + 1] == s[..n] + [s[n]];
      if (if q.Overlapping? then start.Le(s[n].stop) && s[n].start.Le(stop) else start.Le(s[n].start) && s[n].stop.Le(stop)) {
        r := r + [s[n]];
      }
      n := n + 1;
    }
    assert s[..n] == s;
  }

  /** `visit_near` with one of the two filters. What it prunes could not have matched. */
  method Visit(t: Tree, q: Query, start: Point, stop: Point, acc: seq<Interval>) returns (r: seq<Interval>)
    requires t.Node? && IsIndex(t)
    ensures Adds(r, acc, Contents(t), q, start, stop)
    decreases t
  {
    hide Adds;
    var r1 := acc;
    if t.intervals != [] && !(stop.Lt(t.intervals[0].start)) {
      r1 := Push(t.intervals, q, start, stop, acc);
    } else {
      FrontPruned(t.intervals, q, start, stop);
      AddsNothing(acc, multiset(t.intervals), q, start, stop);
    }
    var r2 := r1;
    if t.left.Node? && start.Le(t.center) {
      r2 := Visit(t.left, q, start, stop, r1);
    } else {
      LeftPruned(t, q, start, stop);
      AddsNothing(r1, Contents(t.left), q, start, stop);
    }
    r := r2;
    if t.right.Node? && t.center.Le(stop) {
      r := Visit(t.right, q, start, stop, r2);
    } else {
      RightPruned(t, q, start, stop);
      AddsNothing(r2, Contents(t.right), q, start, stop);
    }
    AddsThrice(acc, r1, r2, r, Contents(t.left), multiset(t.intervals), Contents(t.right), q, start, stop);
  }

  lemma FrontPruned(s: seq<Interval>, q: Query, start: Point, stop: Point)
    requires SortedByStart(s) && WellFormed(s)
    requires s == [] || stop.Lt(s[0].start)
    ensures forall x :: x in multiset(s) ==> !Keeps(q, start, stop, x)
  {
    forall x | x in multiset(s)
      ensures !Keeps(q, start, stop, x)
    {
      var i :| 0 <= i < |s| && s[i] == x;
      assert s[0].start.Le(s[i].start);
    }
  }

  lemma LeftPruned(t: Tree, q: Query, start: Point, stop: Point)
    requires t.Node? && IsIndex(t) && (t.left.Nil? || t.center.Lt(start))
    ensures forall x :: x in Contents(t.left) ==> !Keeps(q, start, stop, x)
  {
  }

  lemma RightPruned(t: Tree, q: Query, start: Point, stop: Point)
    requires t.Node? && IsIndex(t) && (t.right.Nil? || stop.Lt(t.center))
    ensures forall x :: x in Contents(t.right) ==> !Keeps(q, start, stop, x)
  {
  }

  /** The linear filter keeps each element exactly as often as it occurs, or not at all. */
  lemma {:induction false} SelectCounts(s: seq<Interval>, q: Query, start: Point, stop: Point)
    ensures Adds(Select(s, q, start, stop), [], multiset(s), q, start, stop)
  {
    if s != [] {
      SelectCounts(s[1..], q, start, stop);
      assert s == [s[0]] + s[1..];
    }
  }

  lemma SameCounts(r: seq<Interval>, s: seq<Interval>, q: Query, start: Point, stop: Point)
    requires Adds(r, [], multiset(s), q, start, stop)
    ensures multiset(r) == multiset(Select(s, q, start, stop))
  {
    SelectCounts(s, q, start, stop);
  }

  /** `findOverlapping` on a tree built from `ivals`. */
  method FindOverlapping(t: Tree, ghost ivals: seq<Interval>, start: Point, stop: Point) returns (r: seq<Interval>)
    requires t.Node? && IsIndex(t) && Contents(t) == multiset(ivals)
    ensures multiset(r) == multiset(Select(ivals, Overlapping, start, stop))
  {
    r := Visit(t, Overlapping, start, stop, []);
    SameCounts(r, ivals, Overlapping, start, stop);
  }

  /** `findContained` on a tree built from `ivals`. */
  method FindContained(t: Tree, ghost ivals: seq<Interval>, start: Point, stop: Point) returns (r: seq<Interval>)
    requires t.Node? && IsIndex(t) && Contents(t) == multiset(ivals)
    ensures multiset(r) == multiset(Select(ivals, Contained, start, stop))
  {
    r := Visit(t, Contained, start, stop, []);
    SameCounts(r, ivals, Contained, start, stop);
  }

  /** The order in which `visit_all` meets the intervals. */
  function InOrder(t: Tree): seq<Interval> {
    if t.Nil? then [] else InOrder(t.left) + t.intervals + InOrder(t.right)
  }

  predicate Empty(t: Tree) {
    t.Nil? || (Empty(t.left) && t.intervals == [] && Empty(t.right))
  }

  /** `visit_all` meets every interval once, and `empty` says whether there is any. */
  lemma {:induction false} VisitsAll(t: Tree)
    ensures multiset(InOrder(t)) == Contents(t)
    ensures Empty(t) <==> Contents(t) == multiset{}
  {
    if t.Node? {
      VisitsAll(t.left);
      VisitsAll(t.right);
      if Contents(t) == multiset{} {
        assert |Contents(t)| == |Contents(t.left)| + |multiset(t.intervals)| + |Contents(t.right)|;
      }
    }
  }
}
