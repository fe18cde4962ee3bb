/** Reading input events: records are split into single key presses and single bytes on the way out, what does not
    fit is cached, and the reader sees one stream from which every read takes the next piece. */
module InputEvents {
  import opened Numbers

  datatype Event =
    | Key(down: bool, repeat: nat, vk: int, scan: int, ch: int, ctrl: int)
    | Mouse(flags: int, pos: int, buttons: int)
    | Other(kind: int, data: int)

  /** Converts one UTF-16 unit to the bytes of the current code page; the empty sequence is a failure. */
  type Encoder = int -> seq<int>

  /** How a read wants its events. */
  datatype Request = Request(unicode: bool, stream: bool)

  // ---------------------------------------------------------------------------------------
  // What a record stands for
  // ---------------------------------------------------------------------------------------

  /** What one press of a record turns into: itself, or one event per byte. */
  ghost function Unit(e: Event, r: Request, enc: Encoder): seq<Event> {
    if e.Key? && !r.unicode then Bytes(e, enc(e.ch)) else [e]
  }

  ghost function Bytes(e: Event, bytes: seq<int>): seq<Event>
    requires e.Key?
  {
    if bytes == [] then [] else [e.(ch := bytes[0])] + Bytes(e, bytes[1..])
  }

  ghost function Copies(n: nat, unit: seq<Event>): seq<seq<Event>> {
    if n == 0 then [] else [unit] + Copies(n - 1, unit)
  }

  /** The record with its repeat count taken out, when reading a stream. */
  ghost function Single(e: Event, r: Request): Event {
    if e.Key? && r.stream then e.(repeat := 1) else e
  }

  /** How often a record has to be delivered; a count of zero means once. */
  ghost function Times(e: Event, r: Request): nat {
    if e.Key? && r.stream && e.repeat > 1 then e.repeat else 1
  }

  /** A record as the units it is delivered in. */
  ghost function UnitsOf(e: Event, r: Request, enc: Encoder): seq<seq<Event>> {
    Copies(Times(e, r), Unit(Single(e, r), r, enc))
  }

  ghost function Units(storage: seq<Event>, r: Request, enc: Encoder): seq<seq<Event>> {
    if storage == [] then [] else UnitsOf(storage[0], r, enc) + Units(storage[1..], r, enc)
  }

  ghost function Flatten(units: seq<seq<Event>>): seq<Event> {
    if units == [] then [] else units[0] + Flatten(units[1..])
  }

  /** How many units it takes to deliver at least `k` events. */
  ghost function Consumed(units: seq<seq<Event>>, k: int): nat {
    if k <= 0 || units == [] then 0 else 1 + Consumed(units[1..], k - |units[0]|)
  }

  ghost predicate Converts(e: Event, r: Request, enc: Encoder) {
    e.Key? && !r.unicode ==> enc(e.ch) != []
  }

  // ---------------------------------------------------------------------------------------
  // Laws of units
  // ---------------------------------------------------------------------------------------

  lemma {:induction false} FlattenConcat(a: seq<seq<Event>>, b: seq<seq<Event>>)
    ensures Flatten(a + b) == Flatten(a) + Flatten(b)
  {
    if a == [] {
      assert a + b == b;
    } else {
      assert (a + b)[1..] == a[1..] + b;
      FlattenConcat(a[1..], b);
    }
  }

  lemma {:induction false} UnitsConcat(a: seq<Event>, b: seq<Event>, r: Request, enc: Encoder)
    ensures Units(a + b, r, enc) == Units(a, r, enc) + Units(b, r, enc)
  {
    if a == [] {
      assert a + b == b;
    } else {
      assert (a + b)[1..] == a[1..] + b;
      UnitsConcat(a[1..], b, r, enc);
    }
  }

  lemma {:induction false} ConsumedBound(units: seq<seq<Event>>, k: int)
    ensures Consumed(units, k) <= |units|
    ensures Consumed(units, k) < |units| ==> |Flatten(units[..Consumed(units, k)])| >= k
  {
    if k > 0 && units != [] {
      ConsumedBound(units[1..], k - |units[0]|);
      var c := Consumed(units[1..], k - |units[0]|);
      assert units[..1 + c][0] == units[0];
      assert units[..1 + c][1..] == units[1..][..c];
    }
  }

  /** Units that have all been consumed can be accounted for separately. */
  lemma {:induction false} ConsumedConcat(a: seq<seq<Event>>, b: seq<seq<Event>>, k: int)
    ensures Consumed(a + b, k) ==
            if Consumed(a, k) == |a| then |a| + Consumed(b, k - |Flatten(a)|) else Consumed(a, k)
  {
    if a == [] {
      assert a + b == b;
    } else if k > 0 {
      assert (a + b)[1..] == a[1..] + b;
      ConsumedConcat(a[1..], b, k - |a[0]|);
    }
  }

  lemma {:induction false} CopiesAt(n: nat, unit: seq<Event>, c: nat)
    requires c <= n
    ensures |Copies(n, unit)| == n
    ensures Copies(n, unit)[..c] == Copies(c, unit) && Copies(n, unit)[c..] == Copies(n - c, unit)
  {
    if n > 0 && c > 0 {
      CopiesAt(n - 1, unit, c - 1);
      assert Copies(n, unit)[..c] == [unit] + Copies(n - 1, unit)[..c - 1];
    } else if n > 0 {
      CopiesAt(n - 1, unit, 0);
    }
  }

  lemma {:induction false} CopiesSnoc(n: nat, unit: seq<Event>)
    ensures Flatten(Copies(n + 1, unit)) == Flatten(Copies(n, unit)) + unit
  {
    if n > 0 {
      CopiesSnoc(n - 1, unit);
      assert Copies(n + 1, unit)[1..] == Copies(n, unit) && Copies(n, unit)[1..] == Copies(n - 1, unit);
    } else {
      assert Copies(1, unit) == [unit] && Flatten([unit]) == unit + Flatten([]);
    }
  }

  // ---------------------------------------------------------------------------------------
  // The read loop
  // ---------------------------------------------------------------------------------------

  /** Deliver the presses of one record until all are out or enough has been read. */
  method Emit(out0: seq<Event>, unit: seq<Event>, times: nat, amount: nat) returns (out: seq<Event>, left: nat)
    requires 0 < times && |out0| < amount
    ensures left < times && times - left == Consumed(Copies(times, unit), amount - |out0|)
    ensures out == out0 + Flatten(Copies(times - left, unit))
  {
    out, left := out0 + unit, times - 1;
    CopiesSnoc(0, unit);
    while left > 0 && |out| < amount
      invariant left < times && out == out0 + Flatten(Copies(times - left, unit))
      invariant times - left + Consumed(Copies(left, unit), amount - |out|) == Consumed(Copies(times, unit), amount - |out0|)
    {
      CopiesSnoc(times - left, unit);
      out, left := out + unit, left - 1;
    }
  }

  /** Where the loop stands: the first `n` units of the stored records have been delivered. */
  ghost predicate Delivered(units: seq<seq<Event>>, n: nat, out0: seq<Event>, out: seq<Event>, amount: nat) {
    && n <= |units|
    && out == out0 + Flatten(units[..n])
    && n + Consumed(units[n..], amount - |out|) == Consumed(units, amount - |out0|)
  }

  /** Delivering `c` units of the next record. */
  lemma DeliverMore(units: seq<seq<Event>>, n: nat, out0: seq<Event>, out: seq<Event>, amount: nat,
                    record: seq<seq<Event>>, rest: seq<seq<Event>>, c: nat)
    requires Delivered(units, n, out0, out, amount) && units[n..] == record + rest
    requires c == Consumed(record, amount - |out|)
    ensures c <= |record| && units[n + c..] == record[c..] + rest
    ensures Delivered(units, n + c, out0, out + Flatten(record[..c]), amount)
    ensures c < |record| ==> |out + Flatten(record[..c])| >= amount
  {
    hide Flatten, Consumed;
    var k := amount - |out|;
    ConsumedBound(record, k);
    NextUnits(units, n, record, rest, c);
    ConsumedNext(record, rest, k);
  }

  lemma NextUnits(units: seq<seq<Event>>, n: nat, record: seq<seq<Event>>, rest: seq<seq<Event>>, c: nat)
    requires n <= |units| && units[n..] == record + rest && c <= |record|
    ensures units[n + c..] == record[c..] + rest
    ensures Flatten(units[..n + c]) == Flatten(units[..n]) + Flatten(record[..c])
  {
    hide Flatten;
    assert units[..n + c] == units[..n] + record[..c] by {
      assert units[n..][..c] == record[..c];
    }
    FlattenConcat(units[..n], record[..c]);
    assert units[n + c..] == units[n..][c..];
  }

  lemma ConsumedNext(record: seq<seq<Event>>, rest: seq<seq<Event>>, k: int)
    ensures Consumed(record, k) <= |record|
    ensures var c := Consumed(record, k);
            c + Consumed(record[c..] + rest, k - |Flatten(record[..c])|) == Consumed(record + rest, k)
  {
    hide Flatten;
    var c := Consumed(record, k);
    ConsumedBound(record, k);
    ConsumedConcat(record, rest, k);
    if c == |record| {
      assert record[..c] == record && record[c..] + rest == rest;
    }
  }

  /** Every record that is looked at before `k` events are there can be converted. */
  ghost predicate ReachConverts(storage: seq<Event>, r: Request, enc: Encoder, k: int) {
    storage == [] || k <= 0 ||
    (Converts(storage[0], r, enc) && ReachConverts(storage[1..], r, enc, k - |Flatten(UnitsOf(storage[0], r, enc))|))
  }

  lemma {:induction false} AllConvert(storage: seq<Event>, r: Request, enc: Encoder, k: int)
    requires forall i :: 0 <= i < |storage| ==> Converts(storage[i], r, enc)
    ensures ReachConverts(storage, r, enc, k)
  {
    if storage != [] && k > 0 {
      AllConvert(storage[1..], r, enc, k - |Flatten(UnitsOf(storage[0], r, enc))|);
    }
  }

  /** Nothing the reader asks for can fail to convert. */
  ghost predicate AlwaysConverts(r: Request, enc: Encoder) {
    r.unicode || forall c :: enc(c) != []
  }

  lemma AlwaysReached(storage: seq<Event>, r: Request, enc: Encoder, k: int)
    requires AlwaysConverts(r, enc)
    ensures ReachConverts(storage, r, enc, k)
  {
    AllConvert(storage, r, enc, k);
  }

  /** Delivering part of a record is enough when it is all that is needed. */
  lemma ReachNext(storage: seq<Event>, r: Request, enc: Encoder, k: int, c: nat)
    requires storage != [] && k > 0 && Converts(storage[0], r, enc) && c == Consumed(UnitsOf(storage[0], r, enc), k)
    ensures c <= |UnitsOf(storage[0], r, enc)|
    ensures ReachConverts(storage, r, enc, k) <==>
            ReachConverts(storage[1..], r, enc, k - |Flatten(UnitsOf(storage[0], r, enc)[..c])|)
  {
    hide Flatten, UnitsOf, Consumed;
    var record := UnitsOf(storage[0], r, enc);
    ConsumedBound(record, k);
    if c == |record| {
      assert record[..c] == record;
    } else {
      assert record == record[..c] + record[c..];
      FlattenConcat(record[..c], record[c..]);
      EnoughReached(storage[1..], r, enc, k - |Flatten(record)|);
      EnoughReached(storage[1..], r, enc, k - |Flatten(record[..c])|);
    }
  }

  lemma EnoughReached(storage: seq<Event>, r: Request, enc: Encoder, k: int)
    ensures k <= 0 || storage == [] ==> ReachConverts(storage, r, enc, k)
  {
  }

  lemma UnconvertedFails(storage: seq<Event>, r: Request, enc: Encoder, k: int)
    requires storage != [] && k > 0 && !Converts(storage[0], r, enc)
    ensures !ReachConverts(storage, r, enc, k)
  {
  }

  /** The loop of `Read`: deliver stored records until `amount` events are there. A record that is only partly
      delivered stays, with the presses that are left. */
  method ReadLoop(storage: seq<Event>, out0: seq<Event>, amount: nat, peek: bool, r: Request, enc: Encoder)
    returns (ok: bool, out: seq<Event>, storage': seq<Event>)
    ensures ok <==> ReachConverts(storage, r, enc, amount - |out0|)
    ensures !ok || peek ==> storage' == storage
    ensures ok ==>
              var n := Consumed(Units(storage, r, enc), amount - |out0|);
              && n <= |Units(storage, r, enc)|
              && out == out0 + Flatten(Units(storage, r, enc)[..n])
              && (!peek ==> Units(storage', r, enc) == Units(storage, r, enc)[n..])
  {
    hide Delivered, UnitsOf, ReachConverts, Flatten, Consumed;
    ghost var units := Units(storage, r, enc);
    ghost var n: nat := 0;
    ok, out, storage' := true, out0, storage;
    var i := 0;
    DeliveredNothing(units, out0, amount);
    assert storage[0..] == storage;
    while i < |storage| && |out| < amount
      invariant i <= |storage| && Delivered(units, n, out0, out, amount)
      invariant n <= |units| && (|out| < amount || !peek ==> units[n..] == Units(storage[i..], r, enc))
      invariant ReachConverts(storage, r, enc, amount - |out0|) <==> ReachConverts(storage[i..], r, enc, amount - |out|)
    {
      var e := storage[i];
      ghost var tail, k := storage[i..], amount - |out|;
      assert tail[0] == e && tail[1..] == storage[i + 1..];
      if e.Key? && !r.unicode && enc(e.ch) == [] {
        UnconvertedFails(tail, r, enc, k);
        ok := false;
        return;
      }
      ghost var record, rest := UnitsOf(e, r, enc), Units(storage[i + 1..], r, enc);
      ghost var c := Consumed(record, k);
      DeliverMore(units, n, out0, out, amount, record, rest, c);
      ReachNext(tail, r, enc, k, c);
      var left;
      out, left := DeliverRecord(e, out, amount, r, enc);
      n := n + c;
      if left != 0 && !peek {
        storage' := [e.(repeat := left)] + storage[i + 1..];
        Finished(units, n, out0, out, amount);
        LeftoverUnits(e, r, enc, c, left, storage[i + 1..]);
        EnoughReached(storage[i + 1..], r, enc, amount - |out|);
        return;
      }
      AllDelivered(record, rest, c, left);
      i := i + 1;
    }
    if !peek {
      storage' := storage[i..];
    }
    FinishedAll(units, n, out0, out, amount, storage, i, r, enc);
    EnoughReached(storage[i..], r, enc, amount - |out|);
  }

  lemma AllDelivered(record: seq<seq<Event>>, rest: seq<seq<Event>>, c: nat, left: nat)
    requires c <= |record| && left == |record| - c
    ensures left == 0 ==> record[c..] + rest == rest
  {
  }

  /** A key once for every byte of its character. */
  method PerByte(e: Event, bytes: seq<int>) returns (unit: seq<Event>)
    requires e.Key?
    ensures unit == Bytes(e, bytes)
  {
    unit := [];
    var i := 0;
    while i < |bytes|
      invariant 0 <= i <= |bytes| && |unit| == i
      invariant forall k :: 0 <= k < i ==> unit[k] == e.(ch := bytes[k])
    {
      unit := unit + [e.(ch := bytes[i])];
      i := i + 1;
    }
    BytesAre(e, bytes);
  }

  lemma {:induction false} BytesAre(e: Event, bytes: seq<int>)
    requires e.Key?
    ensures |Bytes(e, bytes)| == |bytes| && forall i :: 0 <= i < |bytes| ==> Bytes(e, bytes)[i] == e.(ch := bytes[i])
  {
    if bytes != [] {
      BytesAre(e, bytes[1..]);
    }
  }

  lemma CopiesFlat(n: nat, unit: seq<Event>)
    requires n > 0
    ensures Flatten(Copies(n, unit)) == unit + Flatten(Copies(n - 1, unit))
  {
    assert Copies(n, unit)[1..] == Copies(n - 1, unit);
  }

  lemma {:induction false} CopiesLength(n: nat, unit: seq<Event>)
    ensures |Flatten(Copies(n, unit))| == n * |unit|
  {
    if n > 0 {
      hide Flatten, Copies;
      CopiesLength(n - 1, unit);
      CopiesFlat(n, unit);
      assert n * |unit| == (n - 1) * |unit| + |unit|;
    } else {
      FlattenNone();
    }
  }

  /** Copies in a row, event by event. */
  lemma {:induction false} CopyAt(n: nat, unit: seq<Event>, i: nat, k: nat)
    requires i < n && k < |unit|
    ensures |Flatten(Copies(n, unit))| == n * |unit| && 0 <= i * |unit| + k < n * |unit|
    ensures Flatten(Copies(n, unit))[i * |unit| + k] == unit[k]
    decreases n
  {
    hide Flatten, Copies;
    CopiesLength(n, unit);
    CopiesFlat(n, unit);
    InProduct(i, n, |unit|, k);
    if i > 0 {
      CopyAt(n - 1, unit, i - 1, k);
      InProduct(i - 1, n - 1, |unit|, k);
    }
  }

  lemma InProduct(i: nat, n: nat, u: nat, k: nat)
    requires i < n && k < u
    ensures 0 <= i * u + k < n * u && (i > 0 ==> i * u + k == u + ((i - 1) * u + k))
  {
    MulMonotone(i + 1, n, u);
    assert (i + 1) * u == i * u + u;
    assert i > 0 ==> i * u == (i - 1) * u + u;
    MulMonotone(0, i, u);
  }

  /** What a reader sees of one record: anything but a key as it is; a key as often as its repeat count says, if a stream is
      read, with the count taken out; and each time, in a multibyte read, once for every byte, in order. */
  lemma OneRecordStream(e: Event, r: Request, enc: Encoder, i: nat, k: nat)
    requires e.Key? && !r.unicode ==> enc(e.ch) != []
    requires i < (if e.Key? && r.stream && e.repeat > 1 then e.repeat else 1)
    requires k < (if e.Key? && !r.unicode then |enc(e.ch)| else 1)
    ensures var seen := Flatten(Units([e], r, enc));
            var times := if e.Key? && r.stream && e.repeat > 1 then e.repeat else 1;
            var one := if e.Key? && r.stream then e.(repeat := 1) else e;
            if e.Key? && !r.unicode then
              var bytes := enc(e.ch);
              |seen| == times * |bytes| && 0 <= i * |bytes| + k < |seen| && seen[i * |bytes| + k] == one.(ch := bytes[k])
            else
              |seen| == times && seen[i] == one
  {
    hide Flatten, Copies;
    assert [e][1..] == [];
    assert Units([e], r, enc) == UnitsOf(e, r, enc) + Units([], r, enc) == UnitsOf(e, r, enc);
    var unit := Unit(Single(e, r), r, enc);
    if e.Key? && !r.unicode {
      BytesAre(Single(e, r), enc(e.ch));
    }
    CopyAt(Times(e, r), unit, i, k);
  }

  /** One record: keys press by press, anything else as it is. */
  method DeliverRecord(e: Event, out0: seq<Event>, amount: nat, r: Request, enc: Encoder)
    returns (out: seq<Event>, left: nat)
    requires |out0| < amount
    ensures var record := UnitsOf(e, r, enc);
            var c := Consumed(record, amount - |out0|);
            && c <= |record| && left == |record| - c && out == out0 + Flatten(record[..c])
            && (left > 0 ==> e.Key? && left < Times(e, r) == |record|)
  {
    hide UnitsOf, Flatten, Consumed;
    ghost var record := UnitsOf(e, r, enc);
    ghost var c := Consumed(record, amount - |out0|);
    ConsumedBound(record, amount - |out0|);
    if e.Key? {
      RecordUnits(e, r, enc, c);
      var single, times := e, 1;
      if r.stream {
        single, times := e.(repeat := 1), if e.repeat > 1 then e.repeat else 1;
      }
      var unit := [single];
      if !r.unicode {
        unit := PerByte(single, enc(e.ch));
      }
      out, left := Emit(out0, unit, times, amount);
    } else {
      PlainUnits(e, r, enc, amount - |out0|);
      out, left := out0 + [e], 0;
    }
  }

  lemma DeliveredNothing(units: seq<seq<Event>>, out0: seq<Event>, amount: nat)
    ensures Delivered(units, 0, out0, out0, amount)
  {
    assert units[..0] == [] && units[0..] == units;
  }

  lemma RecordUnits(e: Event, r: Request, enc: Encoder, c: nat)
    requires e.Key? && c <= |UnitsOf(e, r, enc)|
    ensures |UnitsOf(e, r, enc)| == Times(e, r)
    ensures UnitsOf(e, r, enc) == Copies(Times(e, r), Unit(Single(e, r), r, enc))
    ensures UnitsOf(e, r, enc)[..c] == Copies(c, Unit(Single(e, r), r, enc))
    ensures UnitsOf(e, r, enc)[c..] == Copies(Times(e, r) - c, Unit(Single(e, r), r, enc))
  {
    CopiesAt(Times(e, r), Unit(Single(e, r), r, enc), 0);
    CopiesAt(Times(e, r), Unit(Single(e, r), r, enc), c);
  }

  lemma LeftoverUnits(e: Event, r: Request, enc: Encoder, c: nat, left: nat, rest: seq<Event>)
    requires e.Key? && 0 < left < Times(e, r) && left == Times(e, r) - c && c <= |UnitsOf(e, r, enc)|
    ensures Units([e.(repeat := left)] + rest, r, enc) == UnitsOf(e, r, enc)[c..] + Units(rest, r, enc)
  {
    RecordUnits(e, r, enc, c);
    var kept := e.(repeat := left);
    assert ([kept] + rest)[1..] == rest;
    assert Single(kept, r) == Single(e, r) && Times(kept, r) == left;
  }

  lemma PlainUnits(e: Event, r: Request, enc: Encoder, k: int)
    requires !e.Key? && k > 0
    ensures UnitsOf(e, r, enc) == [[e]] && Consumed(UnitsOf(e, r, enc), k) == 1
    ensures Flatten(UnitsOf(e, r, enc)[..1]) == [e]
  {
    assert Copies(1, [e]) == [[e]];
    assert UnitsOf(e, r, enc)[..1] == [[e]];
  }

  lemma Finished(units: seq<seq<Event>>, n: nat, out0: seq<Event>, out: seq<Event>, amount: nat)
    requires Delivered(units, n, out0, out, amount) && (|out| >= amount || units[n..] == [])
    ensures n == Consumed(units, amount - |out0|) && out == out0 + Flatten(units[..n])
  {
  }

  lemma FinishedAll(units: seq<seq<Event>>, n: nat, out0: seq<Event>, out: seq<Event>, amount: nat,
                    storage: seq<Event>, i: nat, r: Request, enc: Encoder)
    requires Delivered(units, n, out0, out, amount) && i <= |storage| && n <= |units|
    requires |out| < amount ==> units[n..] == Units(storage[i..], r, enc)
    requires i == |storage| || |out| >= amount
    ensures n == Consumed(units, amount - |out0|) && out == out0 + Flatten(units[..n])
  {
    if |out| < amount {
      assert storage[i..] == [];
    }
    Finished(units, n, out0, out, amount);
  }

  // ---------------------------------------------------------------------------------------
  // Where a read cuts the stream
  // ---------------------------------------------------------------------------------------

  /** Delivering whole units goes beyond `k` events: the last unit does not fit. */
  ghost predicate Overshoots(units: seq<seq<Event>>, k: int) {
    Consumed(units, k) <= |units| && |Flatten(units[..Consumed(units, k)])| > k
  }

  /** The pieces a read cuts the stream into. */
  lemma TakeAndDrop(cache: seq<Event>, units: seq<seq<Event>>, amount: nat)
    ensures var m := Min(amount, |cache|);
            var n := Consumed(units, amount - m);
            && n <= |units|
            && var full := cache[..m] + Flatten(units[..n]);
               var stream := cache + Flatten(units);
               var out := full[..Min(amount, |full|)];
               && out == stream[..Min(amount, |stream|)]
               && cache[m..] + full[|out|..] + Flatten(units[n..]) == stream[|out|..]
  {
    hide Flatten, Consumed;
    var m := Min(amount, |cache|);
    var n := Consumed(units, amount - m);
    ConsumedBound(units, amount - m);
    FlattenConcat(units[..n], units[n..]);
    assert units == units[..n] + units[n..];
    FlattenNone();
    if m < |cache| {
      ConsumedNone(units);
      assert units[..0] == [] && units[0..] == units;
      CacheSuffices(cache, Flatten(units), amount);
    } else {
      if n == |units| {
        assert units[n..] == [];
      }
      CacheUsedUp(cache, Flatten(units[..n]), Flatten(units[n..]), amount);
    }
  }

  lemma CacheSuffices(cache: seq<Event>, flat: seq<Event>, amount: nat)
    requires amount < |cache|
    ensures var full, stream := cache[..amount] + [], cache + flat;
            var out := full[..Min(amount, |full|)];
            out == stream[..Min(amount, |stream|)] && cache[amount..] + full[|out|..] + flat == stream[|out|..]
  {
    var full := cache[..amount] + [];
    assert full == cache[..amount] && full[amount..] == [];
    assert cache[amount..] + [] == cache[amount..];
  }

  lemma CacheUsedUp(cache: seq<Event>, front: seq<Event>, back: seq<Event>, amount: nat)
    requires |cache| <= amount && (|cache| + |front| >= amount || back == [])
    ensures var full, stream := cache[..|cache|] + front, cache + (front + back);
            var out := full[..Min(amount, |full|)];
            out == stream[..Min(amount, |stream|)] && cache[|cache|..] + full[|out|..] + back == stream[|out|..]
  {
    var full := cache[..|cache|] + front;
    assert cache[..|cache|] == cache && cache[|cache|..] == [];
    SplitFront(full, back, amount);
    assert cache + (front + back) == full + back;
    var k := Min(amount, |full|);
    assert [] + full[k..] == full[k..];
  }

  lemma SplitFront(full: seq<Event>, back: seq<Event>, amount: nat)
    requires |full| >= amount || back == []
    ensures full[..Min(amount, |full|)] == (full + back)[..Min(amount, |full + back|)]
    ensures full[Min(amount, |full|)..] + back == (full + back)[Min(amount, |full|)..]
  {
  }

  lemma ConsumedNone(units: seq<seq<Event>>)
    ensures Consumed(units, 0) == 0
  {
  }

  lemma FlattenNone()
    ensures Flatten([]) == []
  {
  }

  /** A peek keeps the cut-off part of the last unit in the cache, although the record itself stays stored. */
  lemma PeekedSurplus(cache: seq<Event>, units: seq<seq<Event>>, amount: nat)
    ensures var m := Min(amount, |cache|);
            var n := Consumed(units, amount - m);
            && n <= |units|
            && var full := cache[..m] + Flatten(units[..n]);
               (cache + full[Min(amount, |full|)..] + Flatten(units) == cache + Flatten(units) <==>
                amount <= |cache| || !Overshoots(units, amount - |cache|))
  {
    hide Flatten;
    var m := Min(amount, |cache|);
    var n := Consumed(units, amount - m);
    ConsumedBound(units, amount - m);
    FlattenNone();
    if amount <= |cache| {
      assert n == 0 && units[..0] == [];
    }
    var full := cache[..m] + Flatten(units[..n]);
    var surplus := full[Min(amount, |full|)..];
    if surplus != [] {
      assert |cache + surplus + Flatten(units)| == |cache + Flatten(units)| + |surplus|;
    } else {
      assert cache + surplus == cache;
    }
  }

  /** Unicode events are single units of length one, so a Unicode peek never overshoots. */
  lemma {:induction false} UnicodeNeverOvershoots(storage: seq<Event>, r: Request, enc: Encoder, k: nat)
    requires r.unicode
    ensures !Overshoots(Units(storage, r, enc), k)
  {
    AllOnes(storage, r, enc);
    OnesFit(Units(storage, r, enc), k);
  }

  lemma {:induction false} AllOnes(storage: seq<Event>, r: Request, enc: Encoder)
    requires r.unicode
    ensures forall i :: 0 <= i < |Units(storage, r, enc)| ==> |Units(storage, r, enc)[i]| == 1
  {
    if storage != [] {
      AllOnes(storage[1..], r, enc);
      CopiesAre(Times(storage[0], r), Unit(Single(storage[0], r), r, enc));
    }
  }

  lemma {:induction false} CopiesAre(n: nat, unit: seq<Event>)
    ensures forall i :: 0 <= i < |Copies(n, unit)| ==> Copies(n, unit)[i] == unit
  {
    if n > 0 {
      CopiesAre(n - 1, unit);
    }
  }

  lemma {:induction false} OnesFit(units: seq<seq<Event>>, k: nat)
    requires forall i :: 0 <= i < |units| ==> |units[i]| == 1
    ensures Consumed(units, k) <= |units| && |Flatten(units[..Consumed(units, k)])| <= k
  {
    if k > 0 && units != [] {
      OnesFit(units[1..], k - 1);
      var c := Consumed(units[1..], k - 1);
      assert units[..1 + c][1..] == units[1..][..c];
    }
  }

  /** A multibyte peek that cuts a two-byte character leaves its second byte behind twice. */
  lemma PeekCanDuplicate(e: Event, enc: Encoder)
    requires e.Key? && |enc(e.ch)| == 2
    ensures Overshoots(Units([e], Request(false, false), enc), 1)
  {
    var r := Request(false, false);
    var unit := Unit(e, r, enc);
    assert unit == [e.(ch := enc(e.ch)[0])] + Bytes(e, enc(e.ch)[1..]);
    assert Bytes(e, enc(e.ch)[1..]) == [e.(ch := enc(e.ch)[1])] + Bytes(e, enc(e.ch)[1..][1..]);
    assert |unit| == 2;
    assert Copies(1, unit) == [unit];
    assert [e][1..] == [] && Units([], r, enc) == [];
    assert Units([e], r, enc) == [unit];
    assert [unit][..1] == [unit] && Flatten([unit]) == unit + Flatten([]);
  }
}
