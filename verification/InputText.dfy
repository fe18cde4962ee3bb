/** Handing text to a reader in pieces: `Consume` encodes UTF-16 text into whatever room the reader offers and keeps
    the bytes of a split character for the next call. */
module InputText {
  import opened Numbers

  ghost const REPLACEMENT: int := 0xfffd

  /** Converts one code point, given as one or two UTF-16 units, to at least one byte. */
  type PointEncoder = seq<int> -> seq<int>

  ghost predicate Encodes(enc: PointEncoder) {
    forall p :: enc(p) != []
  }

  ghost predicate IsLead(u: int) {
    0xd800 <= u < 0xdc00
  }

  ghost predicate IsTrail(u: int) {
    0xdc00 <= u < 0xe000
  }

  /** The length of the first code point, in units. */
  ghost function PointLength(s: seq<int>): (n: nat)
    requires s != []
    ensures 1 <= n <= |s|
  {
    if IsLead(s[0]) && |s| > 1 && IsTrail(s[1]) then 2 else 1
  }

  /** The first code point; a lone surrogate reads as the replacement character. */
  ghost function Point(s: seq<int>): seq<int>
    requires s != []
  {
    if PointLength(s) == 2 then s[..2] else if IsLead(s[0]) || IsTrail(s[0]) then [REPLACEMENT] else [s[0]]
  }

  /** The encoding of a whole text: what the batch conversion produces. */
  ghost function Encode(s: seq<int>, enc: PointEncoder): seq<int> {
    if s == [] then [] else enc(Point(s)) + Encode(s[PointLength(s)..], enc)
  }

  /** How many code points fill `room` bytes, and how many units they are. */
  ghost function PointsToFill(s: seq<int>, enc: PointEncoder, room: int): nat {
    if s == [] || room <= 0 then 0 else 1 + PointsToFill(s[PointLength(s)..], enc, room - |enc(Point(s))|)
  }

  ghost function UnitsToFill(s: seq<int>, enc: PointEncoder, room: int): (n: nat)
    ensures PointsToFill(s, enc, room) <= n <= |s|
  {
    if s == [] || room <= 0 then 0
    else PointLength(s) + UnitsToFill(s[PointLength(s)..], enc, room - |enc(Point(s))|)
  }

  /** No pair straddles position `k`. */
  ghost predicate Unsplit(s: seq<int>, k: nat)
    requires k <= |s|
  {
    k == 0 || k == |s| || !(IsLead(s[k - 1]) && IsTrail(s[k]))
  }

  lemma {:induction false} EncodeSplit(s: seq<int>, k: nat, enc: PointEncoder)
    requires k <= |s| && Unsplit(s, k)
    ensures Encode(s, enc) == Encode(s[..k], enc) + Encode(s[k..], enc)
  {
    hide Encode;
    if k == 0 {
      assert s[..0] == [] && s[0..] == s;
      Nothing(enc);
    } else {
      var n := PointLength(s);
      SamePoint(s, k);
      assert s[n..][..k - n] == s[..k][n..];
      assert s[n..][k - n..] == s[k..];
      EncodeSplit(s[n..], k - n, enc);
      Unfold(s, enc, 1);
      Unfold(s[..k], enc, 1);
    }
  }

  /** Cutting behind a code point does not change the first one. */
  lemma SamePoint(s: seq<int>, k: nat)
    requires 0 < k <= |s| && Unsplit(s, k)
    ensures PointLength(s) <= k && PointLength(s[..k]) == PointLength(s) && Point(s[..k]) == Point(s)
    ensures Unsplit(s[PointLength(s)..], k - PointLength(s))
  {
  }

  /** Code points end where no pair straddles. */
  lemma {:induction false} FillsWholePoints(s: seq<int>, enc: PointEncoder, room: int)
    ensures Unsplit(s, UnitsToFill(s, enc, room))
  {
    if s != [] && room > 0 {
      var n := PointLength(s);
      FillsWholePoints(s[n..], enc, room - |enc(Point(s))|);
      var u := UnitsToFill(s[n..], enc, room - |enc(Point(s))|);
      if u == 0 && n == 2 {
        assert IsTrail(s[1]);
      }
    }
  }

  lemma EncodeNonEmpty(s: seq<int>, enc: PointEncoder)
    requires Encodes(enc) && s != []
    ensures Encode(s, enc) != []
  {
  }

  /** Dropping fewer units than were encoded repeats some of the text. */
  lemma DropTooFew(s: seq<int>, enc: PointEncoder, room: int, points: nat)
    requires Encodes(enc) && points <= UnitsToFill(s, enc, room)
    ensures |Encode(s[points..], enc)| == |Encode(s[UnitsToFill(s, enc, room)..], enc)|
       <==> points == UnitsToFill(s, enc, room)
  {
    hide Encode, UnitsToFill, PointsToFill, Encodes;
    var u := UnitsToFill(s, enc, room);
    FillsWholePoints(s, enc, room);
    if points < u {
      var t := s[points..];
      UnsplitBehind(s, points, u);
      EncodeSplit(t, u - points, enc);
      assert t[u - points..] == s[u..];
      EncodeNonEmpty(t[..u - points], enc);
    }
  }

  lemma UnsplitBehind(s: seq<int>, points: nat, u: nat)
    requires points < u <= |s| && Unsplit(s, u)
    ensures Unsplit(s[points..], u - points)
  {
  }

  /** `til::bytes_transfer` for bytes: as much as fits. */
  method Transfer(source: seq<int>, room: nat) returns (written: seq<int>, rest: seq<int>)
    ensures written == source[..Min(|source|, room)] && rest == source[Min(|source|, room)..]
  {
    var n := Min(|source|, room);
    written, rest := source[..n], source[n..];
  }

  /** The slow path: encode code point by code point until the room is used up. The encoder's last character may be
      cut; its remainder is returned for the cache. The count is in code points. */
  method EncodeStepwise(source: seq<int>, room: nat, enc: PointEncoder)
    returns (written: seq<int>, cached: seq<int>, points: nat)
    requires Encodes(enc) && 0 < room < |Encode(source, enc)|
    ensures points == PointsToFill(source, enc, room)
    ensures |written| == room
    ensures written + cached + Encode(source[UnitsToFill(source, enc, room)..], enc) == Encode(source, enc)
  {
    hide Encodes, Encode, PointsToFill, UnitsToFill, Filling, Point, PointLength;
    written, cached, points := [], [], 0;
    var at: nat := 0;
    var left: nat := room;
    FillingStarts(source, enc, room);
    while at < |source| && left > 0
      invariant at <= |source| && left <= room && |written| == room - left && (left > 0 ==> cached == [])
      invariant Filling(source, enc, room, at, left, written, cached, points)
      decreases |source| - at
    {
      var next, point := NextPoint(source, at);
      var bytes := enc(point);
      var put, slice := Transfer(bytes, left);
      FillingGoesOn(source, enc, room, at, left, written, points, put, slice);
      points, at := points + 1, next;
      written := written + put;
      left := left - |put|;
      if left == 0 {
        cached := slice;
      }
    }
    FillingEnds(source, enc, room, at, left, written, cached, points);
  }

  /** One step through a text, code point by code point. */
  method NextPoint(source: seq<int>, at: nat) returns (next: nat, point: seq<int>)
    requires at < |source|
    ensures next == at + PointLength(source[at..]) && point == Point(source[at..])
  {
    var unit := source[at];
    if 0xd800 <= unit < 0xdc00 && at + 1 < |source| && 0xdc00 <= source[at + 1] < 0xe000 {
      assert source[at..][..2] == [unit, source[at + 1]];
      return at + 2, [unit, source[at + 1]];
    }
    return at + 1, [if 0xd800 <= unit < 0xe000 then 0xfffd else unit];
  }

  /** The conversion of a whole text in one go. */
  method EncodeAll(source: seq<int>, enc: PointEncoder) returns (bytes: seq<int>)
    ensures bytes == Encode(source, enc)
  {
    hide Encode, Point, PointLength;
    bytes := [];
    var at: nat := 0;
    assert source[0..] == source;
    while at < |source|
      invariant at <= |source| && bytes + Encode(source[at..], enc) == Encode(source, enc)
    {
      ghost var tail := source[at..];
      Unfold(tail, enc, 1);
      var next, point := NextPoint(source, at);
      assert source[next..] == tail[next - at..];
      assert bytes + (enc(point) + Encode(source[next..], enc)) == bytes + enc(point) + Encode(source[next..], enc);
      bytes, at := bytes + enc(point), next;
    }
    assert source[at..] == [];
    Nothing(enc);
  }

  /** What is written and cached so far, with what is still to come, is the encoding; so are the counts. */
  ghost predicate Filling(source: seq<int>, enc: PointEncoder, room: nat, at: nat, left: nat, written: seq<int>,
                          cached: seq<int>, points: nat)
    requires at <= |source|
  {
    && written + (cached + Encode(source[at..], enc)) == Encode(source, enc)
    && points + PointsToFill(source[at..], enc, left) == PointsToFill(source, enc, room)
    && at + UnitsToFill(source[at..], enc, left) == UnitsToFill(source, enc, room)
  }

  lemma FillingStarts(source: seq<int>, enc: PointEncoder, room: nat)
    ensures Filling(source, enc, room, 0, room, [], [], 0)
  {
    assert source[0..] == source;
  }

  lemma FillingGoesOn(source: seq<int>, enc: PointEncoder, room: nat, at: nat, left: nat, written: seq<int>, points: nat,
                      put: seq<int>, slice: seq<int>)
    requires at < |source| && left > 0 && Filling(source, enc, room, at, left, written, [], points)
    requires var bytes := enc(Point(source[at..]));
             put == bytes[..Min(|bytes|, left)] && slice == bytes[Min(|bytes|, left)..]
    ensures var next := at + PointLength(source[at..]);
            && at < next <= |source| && (left - |put| > 0 ==> slice == [])
            && Filling(source, enc, room, next, left - |put|, written + put, if left == |put| then slice else [], points + 1)
  {
    hide Encode, PointsToFill, UnitsToFill;
    var tail := source[at..];
    var bytes := enc(Point(tail));
    var next := at + PointLength(tail);
    Unfold(tail, enc, left);
    assert source[next..] == tail[PointLength(tail)..];
    assert bytes == put + slice;
    Filled(source[next..], enc, left - |bytes|);
    Regroup(written, put, slice, Encode(source[next..], enc));
    assert [] + Encode(tail, enc) == Encode(tail, enc) && [] + Encode(source[next..], enc) == Encode(source[next..], enc);
  }

  lemma FillingEnds(source: seq<int>, enc: PointEncoder, room: nat, at: nat, left: nat, written: seq<int>, cached: seq<int>,
                    points: nat)
    requires at <= |source| && left <= room && |written| == room - left && (left > 0 ==> cached == [])
    requires Filling(source, enc, room, at, left, written, cached, points)
    requires (at == |source| || left == 0) && room < |Encode(source, enc)|
    ensures left == 0 && points == PointsToFill(source, enc, room) && at == UnitsToFill(source, enc, room)
    ensures written + cached + Encode(source[at..], enc) == Encode(source, enc)
  {
    hide Encode, PointsToFill, UnitsToFill;
    Filled(source[at..], enc, left);
    Nothing(enc);
    assert at == |source| ==> source[at..] == [];
  }

  lemma Unfold(s: seq<int>, enc: PointEncoder, room: int)
    requires s != [] && room > 0
    ensures Encode(s, enc) == enc(Point(s)) + Encode(s[PointLength(s)..], enc)
    ensures PointsToFill(s, enc, room) == 1 + PointsToFill(s[PointLength(s)..], enc, room - |enc(Point(s))|)
    ensures UnitsToFill(s, enc, room) == PointLength(s) + UnitsToFill(s[PointLength(s)..], enc, room - |enc(Point(s))|)
  {
  }

  lemma Filled(s: seq<int>, enc: PointEncoder, room: int)
    ensures s == [] || room <= 0 ==>
              PointsToFill(s, enc, room) == 0 && UnitsToFill(s, enc, room) == 0 &&
              forall r :: r <= 0 ==> PointsToFill(s, enc, r) == 0 && UnitsToFill(s, enc, r) == 0
  {
  }

  lemma Nothing(enc: PointEncoder)
    ensures Encode([], enc) == []
  {
  }

  lemma Regroup(a: seq<int>, b: seq<int>, c: seq<int>, d: seq<int>)
    ensures a + (b + c + d) == (a + b) + (c + d)
    ensures c == [] ==> a + (b + c + d) == (a + b) + d
  {
  }

  // ---------------------------------------------------------------------------------------
  // Cached text first, then the source
  // ---------------------------------------------------------------------------------------

  /** UTF-16 units as the bytes they are copied out in. */
  ghost function WideBytes(s: seq<int>): seq<int> {
    if s == [] then [] else [s[0] % 256, s[0] / 256] + WideBytes(s[1..])
  }

  /** Copying units out as bytes, the low one first. */
  method ToBytes(units: seq<int>) returns (bytes: seq<int>)
    ensures bytes == WideBytes(units)
  {
    bytes := [];
    var i := 0;
    while i < |units|
      invariant 0 <= i <= |units| && |bytes| == 2 * i
      invariant forall k :: 0 <= k < i ==> bytes[2 * k] == units[k] % 256 && bytes[2 * k + 1] == units[k] / 256
    {
      bytes := bytes + [units[i] % 256, units[i] / 256];
      i := i + 1;
    }
    SameBytes(units, bytes);
  }

  lemma {:induction false} WideBytesAt(s: seq<int>, k: nat)
    requires k < |s|
    ensures |WideBytes(s)| == 2 * |s| && WideBytes(s)[2 * k] == s[k] % 256 && WideBytes(s)[2 * k + 1] == s[k] / 256
  {
    if k > 0 {
      WideBytesAt(s[1..], k - 1);
    } else if |s| > 1 {
      WideBytesAt(s[1..], 0);
    } else {
      assert s[1..] == [];
    }
  }

  lemma SameBytes(s: seq<int>, bytes: seq<int>)
    requires |bytes| == 2 * |s|
    requires forall k :: 0 <= k < |s| ==> bytes[2 * k] == s[k] % 256 && bytes[2 * k + 1] == s[k] / 256
    ensures bytes == WideBytes(s)
  {
    hide WideBytes;
    if s == [] {
      NoBytes();
    } else {
      WideBytesAt(s, 0);
      forall j | 0 <= j < |bytes|
        ensures bytes[j] == WideBytes(s)[j]
      {
        WideBytesAt(s, j / 2);
        assert bytes[2 * (j / 2)] == s[j / 2] % 256;
      }
    }
  }

  lemma NoBytes()
    ensures WideBytes([]) == []
  {
  }

  lemma {:induction false} WideBytesConcat(a: seq<int>, b: seq<int>)
    ensures WideBytes(a + b) == WideBytes(a) + WideBytes(b)
  {
    if a == [] {
      assert a + b == b;
    } else {
      assert (a + b)[1..] == a[1..] + b;
      WideBytesConcat(a[1..], b);
    }
  }

  /** Taking from two queues in turn is taking from their concatenation. */
  lemma TakeInTurn(a: seq<int>, b: seq<int>, n: nat)
    ensures var m := Min(n, |a|);
            var k := Min(n - m, |b|);
            && (m < |a| ==> k == 0)
            && a[..m] + b[..k] == (a + b)[..Min(n, |a + b|)]
            && a[m..] + b[k..] == (a + b)[Min(n, |a + b|)..]
  {
    var m := Min(n, |a|);
    var k := Min(n - m, |b|);
    if m < |a| {
      assert b[..0] == [] && b[0..] == b;
    } else {
      assert a[m..] == [] && a[..m] == a;
    }
  }

  /** The condition, visible before a multibyte call, under which `Consume` neither repeats nor skips anything:
      everything fits, or no surrogate pair is among the code points that fill the room. */
  ghost predicate CutsCleanly(source: seq<int>, enc: PointEncoder, room: int) {
    |Encode(source, enc)| <= room || PointsToFill(source, enc, room) == UnitsToFill(source, enc, room)
  }

  lemma StopsEarly(cached: seq<int>, source: seq<int>, enc: PointEncoder, room: nat)
    requires source == [] || room <= |cached|
    ensures CutsCleanly(source, enc, room - |cached|)
    ensures var pending, n := cached + Encode(source, enc), Min(|cached|, room);
            cached[..n] == pending[..Min(room, |pending|)] && cached[n..] + Encode(source, enc) == pending[n..]
  {
    TakeInTurn(cached, Encode(source, enc), room);
    var e := Encode(source, enc);
    assert e[..0] == [] && e[0..] == e;
  }

  lemma FastPath(cached: seq<int>, source: seq<int>, enc: PointEncoder, left: nat)
    requires |Encode(source, enc)| <= left
    ensures CutsCleanly(source, enc, left)
    ensures var pending := cached + Encode(source, enc);
            pending == pending[..Min(|cached| + left, |pending|)] && [] + Encode([], enc) == pending[|pending|..]
  {
  }

  lemma SlowPath(cached: seq<int>, source: seq<int>, enc: PointEncoder, left: nat,
                 more: seq<int>, slice: seq<int>, points: nat)
    requires Encodes(enc) && left < |Encode(source, enc)| && |more| == left
    requires points == PointsToFill(source, enc, left)
    requires more + slice + Encode(source[UnitsToFill(source, enc, left)..], enc) == Encode(source, enc)
    ensures var pending := cached + Encode(source, enc);
            && cached + more == pending[..|cached| + left]
            && (slice + Encode(source[points..], enc) == pending[|cached + more|..] <==> CutsCleanly(source, enc, left))
  {
    hide Encode, PointsToFill, UnitsToFill, Encodes;
    var units := UnitsToFill(source, enc, left);
    DropTooFew(source, enc, left, points);
    var rest := Encode(source[units..], enc);
    assert Encode(source, enc) == more + (slice + rest);
    assert (cached + Encode(source, enc))[|cached + more|..] == slice + rest;
  }

  /** Texts without surrogate pairs are always cut cleanly. */
  ghost predicate NoPairs(s: seq<int>) {
    forall i :: 0 <= i < |s| - 1 ==> !(IsLead(s[i]) && IsTrail(s[i + 1]))
  }

  ghost predicate IsSuffix(t: seq<int>, s: seq<int>) {
    |t| <= |s| && t == s[|s| - |t|..]
  }

  lemma SuffixOfSuffix(u: seq<int>, t: seq<int>, s: seq<int>)
    requires IsSuffix(u, t) && IsSuffix(t, s)
    ensures IsSuffix(u, s)
  {
  }

  lemma NoPairsInSuffix(t: seq<int>, s: seq<int>)
    requires IsSuffix(t, s) && NoPairs(s)
    ensures NoPairs(t)
  {
    var d := |s| - |t|;
    forall i | 0 <= i < |t| - 1
      ensures !(IsLead(t[i]) && IsTrail(t[i + 1]))
    {
      assert t[i] == s[d + i] && t[i + 1] == s[d + i + 1];
    }
  }

  lemma {:induction false} NoPairsCutCleanly(s: seq<int>, enc: PointEncoder, room: int)
    requires NoPairs(s)
    ensures CutsCleanly(s, enc, room)
    ensures PointsToFill(s, enc, room) == UnitsToFill(s, enc, room)
  {
    if s != [] && room > 0 {
      assert PointLength(s) == 1;
      NoPairsCutCleanly(s[1..], enc, room - |enc(Point(s))|);
    }
  }

  /** A pair in the way: two units make one code point, and the second unit is handed out again. */
  lemma PairsAreRepeated(lead: int, trail: int, next: int, enc: PointEncoder)
    requires IsLead(lead) && IsTrail(trail) && !IsTrail(next) && |enc([lead, trail])| == 4
    requires Encodes(enc)
    ensures !CutsCleanly([lead, trail, next], enc, 4)
  {
    var s := [lead, trail, next];
    assert s[..2] == [lead, trail] && Point(s) == [lead, trail];
    assert s[2..] == [next];
    assert Encode(s, enc) == enc(Point(s)) + Encode([next], enc);
    EncodeNonEmpty([next], enc);
    assert PointsToFill(s, enc, 4) == 1 + PointsToFill([next], enc, 0);
    assert UnitsToFill(s, enc, 4) == 2 + UnitsToFill([next], enc, 0);
  }
}
