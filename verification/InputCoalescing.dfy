/** Writing input events: a single event may be folded into the last stored one. Exactly when does a stream reader
    not notice? */
module InputCoalescing {
  import opened InputEvents

  ghost const MOUSE_MOVED: int := 1
  ghost const NLS_IME_CONVERSION: int := 0x0080_0000
  ghost const WORD_SIZE: int := 0x1_0000

  ghost predicate ImeConversion(ctrl: int) {
    ctrl / NLS_IME_CONVERSION % 2 == 1
  }

  ghost predicate IsSurrogate(ch: int) {
    0xd800 <= ch < 0xe000
  }

  /** The two cases in which `_CoalesceEvent` updates the last record instead of storing the new one. */
  ghost predicate CanCoalesce(last: Event, e: Event) {
    || (last.Mouse? && e.Mouse? && last.flags == MOUSE_MOVED && e.flags == MOUSE_MOVED)
    || (last.Key? && e.Key? && last.down && e.down && (last.scan == e.scan || ImeConversion(e.ctrl)) &&
        last.ch == e.ch && last.ctrl == e.ctrl && !IsSurrogate(e.ch))
  }

  /** The updated record. Repeat counts are 16 bits wide. */
  ghost function Coalesced(last: Event, e: Event): Event
    requires CanCoalesce(last, e)
  {
    if last.Mouse? then last.(pos := e.pos) else last.(repeat := (last.repeat + e.repeat) % WORD_SIZE)
  }

  /** `_CoalesceEvent`: whether the last record takes in a new one, and what becomes of it. */
  method Coalesce(last: Event, e: Event) returns (ok: bool, merged: Event)
    ensures ok <==> CanCoalesce(last, e)
    ensures ok ==> merged == Coalesced(last, e)
  {
    ok, merged := false, last;
    if last.Mouse? && e.Mouse? {
      if last.flags == 1 && e.flags == 1 {
        return true, last.(pos := e.pos);
      }
    } else if last.Key? && e.Key? {
      if last.down && e.down && (last.scan == e.scan || e.ctrl / 0x0080_0000 % 2 == 1) &&
         last.ch == e.ch && last.ctrl == e.ctrl && !(0xd800 <= e.ch < 0xe000)
      {
        return true, last.(repeat := (last.repeat + e.repeat) % 0x1_0000);
      }
    }
  }

  /** What `_WriteBuffer` leaves in storage, outside VT input mode. */
  ghost function Stored(storage: seq<Event>, events: seq<Event>): seq<Event> {
    if |events| == 1 && storage != [] && CanCoalesce(storage[|storage| - 1], events[0]) then
      storage[..|storage| - 1] + [Coalesced(storage[|storage| - 1], events[0])]
    else
      storage + events
  }

  /** The two presses are the same key in every respect but the repeat count. */
  ghost predicate SameKey(a: Event, b: Event)
    requires a.Key? && b.Key?
  {
    a.(repeat := 0) == b.(repeat := 0)
  }

  lemma {:induction false} CopiesAdd(m: nat, n: nat, unit: seq<Event>)
    ensures Copies(m + n, unit) == Copies(m, unit) + Copies(n, unit)
  {
    if m > 0 {
      CopiesAdd(m - 1, n, unit);
    }
  }

  lemma SameMultiple(m: nat, n: nat, u: nat)
    requires u > 0 && m * u == n * u
    ensures m == n
  {
    if m < n {
      LessMultiple(m, n, u);
    } else if n < m {
      LessMultiple(n, m, u);
    }
  }

  lemma LessMultiple(m: nat, n: nat, u: nat)
    requires u > 0 && m < n
    ensures m * u < n * u
  {
    assert n * u == m * u + (n - m) * u;
  }

  lemma {:induction false} BytesLength(e: Event, bytes: seq<int>)
    requires e.Key?
    ensures |Bytes(e, bytes)| == |bytes|
    ensures bytes != [] ==> Bytes(e, bytes)[|bytes| - 1] == e.(ch := bytes[|bytes| - 1])
  {
    if bytes != [] {
      BytesLength(e, bytes[1..]);
    }
  }

  /** A key's unit is as long as its character's encoding, and its last event still shows which key it was. */
  lemma UnitShape(e: Event, r: Request, enc: Encoder)
    requires e.Key? && r.stream && Converts(e, r, enc)
    ensures var u := Unit(Single(e, r), r, enc);
            |u| == (if r.unicode then 1 else |enc(e.ch)|) && |u| > 0 &&
            u[|u| - 1].Key? && u[|u| - 1].(ch := 0) == e.(repeat := 1, ch := 0)
  {
    if !r.unicode {
      BytesLength(Single(e, r), enc(e.ch));
    }
  }

  lemma LastOfCopies(n: nat, unit: seq<Event>, front: seq<Event>)
    requires n > 0 && unit != []
    ensures Flatten(Copies(n, unit)) != []
    ensures var all := front + Flatten(Copies(n, unit)); all[|all| - 1] == unit[|unit| - 1]
  {
    CopiesSnoc(n - 1, unit);
  }

  /** Folding two presses into one record is invisible to a stream reader exactly when they are the same key, both
      counts are at least one, and the sum fits its sixteen bits. */
  lemma CoalescingIsInvisible(last: Event, e: Event, r: Request, enc: Encoder)
    requires last.Key? && e.Key? && CanCoalesce(last, e) && r.stream && Converts(e, r, enc)
    requires last.repeat < WORD_SIZE && e.repeat < WORD_SIZE
    ensures Flatten(UnitsOf(Coalesced(last, e), r, enc)) == Flatten(UnitsOf(last, r, enc)) + Flatten(UnitsOf(e, r, enc))
       <==> SameKey(last, e) && 1 <= last.repeat && 1 <= e.repeat && last.repeat + e.repeat < WORD_SIZE
  {
    hide Flatten, Copies, Unit;
    var c := Coalesced(last, e);
    assert Single(c, r) == Single(last, r);
    UnitShape(last, r, enc);
    UnitShape(e, r, enc);
    CountsAdd(last.repeat, e.repeat);
    CompareCopies(Times(c, r), Times(last, r), Times(e, r), Unit(Single(last, r), r, enc), Unit(Single(e, r), r, enc));
  }

  ghost function AtLeastOne(n: nat): nat {
    if n > 1 then n else 1
  }

  lemma CountsAdd(a: nat, b: nat)
    requires a < WORD_SIZE && b < WORD_SIZE
    ensures AtLeastOne((a + b) % WORD_SIZE) == AtLeastOne(a) + AtLeastOne(b) <==> 1 <= a && 1 <= b && a + b < WORD_SIZE
  {
  }

  /** `k` copies of `u` against `m` copies of `u` and `n` of an equally long `v`. */
  lemma CompareCopies(k: nat, m: nat, n: nat, u: seq<Event>, v: seq<Event>)
    requires 0 < k && 0 < n && |u| == |v| > 0
    ensures Flatten(Copies(k, u)) == Flatten(Copies(m, u)) + Flatten(Copies(n, v)) ==> k == m + n && u[|u| - 1] == v[|v| - 1]
    ensures k == m + n && u == v ==> Flatten(Copies(k, u)) == Flatten(Copies(m, u)) + Flatten(Copies(n, v))
  {
    hide Flatten, Copies;
    CopiesLength(m, u);
    CopiesLength(n, v);
    CopiesLength(k, u);
    var one, two := Flatten(Copies(k, u)), Flatten(Copies(m, u)) + Flatten(Copies(n, v));
    if one == two {
      assert (m + n) * |u| == m * |u| + n * |u|;
      SameMultiple(k, m + n, |u|);
      LastOfCopies(n, v, Flatten(Copies(m, u)));
      LastOfCopies(k, u, []);
      assert [] + one == one;
    }
    if k == m + n && u == v {
      CopiesAdd(m, n, u);
      FlattenConcat(Copies(m, u), Copies(n, u));
    }
  }

  // ---------------------------------------------------------------------------------------
  // The whole stream
  // ---------------------------------------------------------------------------------------

  ghost predicate Merges(storage: seq<Event>, events: seq<Event>) {
    |events| == 1 && storage != [] && CanCoalesce(storage[|storage| - 1], events[0])
  }

  /** What a reader does not notice, in terms of the two records. */
  ghost predicate Invisible(last: Event, e: Event, r: Request) {
    && last.Key? && e.Key? && r.stream && SameKey(last, e)
    && 1 <= last.repeat && 1 <= e.repeat && last.repeat + e.repeat < WORD_SIZE
  }

  ghost predicate Storable(e: Event, r: Request, enc: Encoder) {
    Converts(e, r, enc) && (e.Key? ==> e.repeat < WORD_SIZE)
  }

  /** To a reader, writing appends the new events to the stream if and only if they are not merged or the merging is
      invisible. */
  lemma WriteIsAppend(storage: seq<Event>, events: seq<Event>, r: Request, enc: Encoder)
    requires forall i :: 0 <= i < |storage| ==> Storable(storage[i], r, enc)
    requires forall i :: 0 <= i < |events| ==> Storable(events[i], r, enc)
    ensures Flatten(Units(Stored(storage, events), r, enc)) ==
            Flatten(Units(storage, r, enc)) + Flatten(Units(events, r, enc))
       <==> !Merges(storage, events) || Invisible(storage[|storage| - 1], events[0], r)
  {
    hide Units, Flatten, UnitsOf, CanCoalesce;
    if !Merges(storage, events) {
      FlatUnits(storage, events, r, enc);
    } else {
      var front, last, e := storage[..|storage| - 1], storage[|storage| - 1], events[0];
      assert storage == front + [last] && events == [e];
      FlatUnits(front, [last], r, enc);
      FlatUnits(front, [Coalesced(last, e)], r, enc);
      OneRecord(last, r, enc);
      OneRecord(e, r, enc);
      OneRecord(Coalesced(last, e), r, enc);
      MergedUnits(last, e, r, enc);
      var f := Flatten(Units(front, r, enc));
      SameAfter(f, Flatten(UnitsOf(Coalesced(last, e), r, enc)),
                Flatten(UnitsOf(last, r, enc)), Flatten(UnitsOf(e, r, enc)));
    }
  }

  lemma SameAfter(f: seq<Event>, a: seq<Event>, b: seq<Event>, c: seq<Event>)
    ensures f + a == (f + b) + c <==> a == b + c
  {
    assert (f + b) + c == f + (b + c);
    if f + a == f + (b + c) {
      assert a == (f + a)[|f|..] && b + c == (f + (b + c))[|f|..];
    }
  }

  lemma FlatUnits(a: seq<Event>, b: seq<Event>, r: Request, enc: Encoder)
    ensures Flatten(Units(a + b, r, enc)) == Flatten(Units(a, r, enc)) + Flatten(Units(b, r, enc))
  {
    UnitsConcat(a, b, r, enc);
    FlattenConcat(Units(a, r, enc), Units(b, r, enc));
  }

  lemma OneRecord(e: Event, r: Request, enc: Encoder)
    ensures Units([e], r, enc) == UnitsOf(e, r, enc)
  {
    assert [e][1..] == [];
    assert Units([e], r, enc) == UnitsOf(e, r, enc) + Units([], r, enc);
  }

  /** An invisible merging adds up, whether or not the character can be converted. */
  lemma InvisibleAddsUp(last: Event, e: Event, r: Request, enc: Encoder)
    requires CanCoalesce(last, e) && Invisible(last, e, r)
    ensures Flatten(UnitsOf(Coalesced(last, e), r, enc)) == Flatten(UnitsOf(last, r, enc)) + Flatten(UnitsOf(e, r, enc))
  {
    hide Flatten, Copies, Unit;
    var u := Unit(Single(last, r), r, enc);
    assert Single(Coalesced(last, e), r) == Single(last, r) == Single(e, r);
    CopiesAdd(last.repeat, e.repeat, u);
    FlattenConcat(Copies(last.repeat, u), Copies(e.repeat, u));
  }

  /** A write that is not merged, or merged invisibly, appends its events to the stream. */
  lemma CleanWriteAppends(storage: seq<Event>, events: seq<Event>, r: Request, enc: Encoder)
    requires !Merges(storage, events) || Invisible(storage[|storage| - 1], events[0], r)
    ensures Flatten(Units(Stored(storage, events), r, enc)) ==
            Flatten(Units(storage, r, enc)) + Flatten(Units(events, r, enc))
  {
    hide Units, Flatten, UnitsOf, CanCoalesce, Invisible;
    if !Merges(storage, events) {
      FlatUnits(storage, events, r, enc);
    } else {
      var front, last, e := storage[..|storage| - 1], storage[|storage| - 1], events[0];
      assert storage == front + [last] && events == [e];
      FlatUnits(front, [last], r, enc);
      FlatUnits(front, [Coalesced(last, e)], r, enc);
      OneRecord(last, r, enc);
      OneRecord(e, r, enc);
      OneRecord(Coalesced(last, e), r, enc);
      InvisibleAddsUp(last, e, r, enc);
      SameAfter(Flatten(Units(front, r, enc)), Flatten(UnitsOf(Coalesced(last, e), r, enc)),
                Flatten(UnitsOf(last, r, enc)), Flatten(UnitsOf(e, r, enc)));
    }
  }

  /** Two records merged into one, for every kind of record and reader. */
  lemma MergedUnits(last: Event, e: Event, r: Request, enc: Encoder)
    requires CanCoalesce(last, e) && Storable(last, r, enc) && Storable(e, r, enc)
    ensures Flatten(UnitsOf(Coalesced(last, e), r, enc)) == Flatten(UnitsOf(last, r, enc)) + Flatten(UnitsOf(e, r, enc))
       <==> Invisible(last, e, r)
  {
    hide Copies, Flatten, Unit;
    if last.Key? && r.stream {
      CoalescingIsInvisible(last, e, r, enc);
    } else {
      OnceOnly(last, r, enc);
      OnceOnly(e, r, enc);
      OnceOnly(Coalesced(last, e), r, enc);
    }
  }

  /** A record that is delivered once fills as many events as its character has bytes. */
  lemma OnceOnly(e: Event, r: Request, enc: Encoder)
    requires Times(e, r) == 1 && Converts(e, r, enc)
    ensures |Flatten(UnitsOf(e, r, enc))| == (if e.Key? && !r.unicode then |enc(e.ch)| else 1) > 0
  {
    var unit := Unit(Single(e, r), r, enc);
    CopiesLength(1, unit);
    if e.Key? && !r.unicode {
      BytesLength(Single(e, r), enc(e.ch));
    }
  }

  /** Two presses with a repeat count of zero are two events apart and one event merged; and a sum of 0x10000 presses
      is taken for zero. */
  lemma MergingLosesPresses(enc: Encoder)
    ensures var r, a := Request(true, true), Key(true, 0, 65, 30, 97, 0);
            CanCoalesce(a, a) &&
            Flatten(UnitsOf(Coalesced(a, a), r, enc)) != Flatten(UnitsOf(a, r, enc)) + Flatten(UnitsOf(a, r, enc))
    ensures var r, a, b := Request(true, true), Key(true, 0xffff, 65, 30, 97, 0), Key(true, 1, 65, 30, 97, 0);
            CanCoalesce(a, b) &&
            Flatten(UnitsOf(Coalesced(a, b), r, enc)) != Flatten(UnitsOf(a, r, enc)) + Flatten(UnitsOf(b, r, enc))
  {
    hide Flatten, UnitsOf;
    var r := Request(true, true);
    CoalescingIsInvisible(Key(true, 0, 65, 30, 97, 0), Key(true, 0, 65, 30, 97, 0), r, enc);
    CoalescingIsInvisible(Key(true, 0xffff, 65, 30, 97, 0), Key(true, 1, 65, 30, 97, 0), r, enc);
  }
}
