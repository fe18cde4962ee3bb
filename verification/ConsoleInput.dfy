/** The input buffer: stored records, one cache per way of reading, and the mode of the last read, which decides which
    cache is in use. */
module ConsoleInput {
  import opened Numbers
  import opened InputEvents
  import opened InputCoalescing
  import opened InputText

  datatype Mode = StringA | StringW | EventsA | EventsW

  ghost function ModeOf(r: Request): Mode {
    if r.unicode then EventsW else EventsA
  }

  class InputBuffer {
    var storage: seq<Event>
    var mode: Mode
    var cache: seq<Event>
    var cachedA: seq<int>
    var cachedW: seq<int>

    /** Only the cache of the current mode is ever in use. */
    ghost predicate Valid()
      reads this
    {
      && (mode != StringA ==> cachedA == [])
      && (mode != StringW ==> cachedW == [])
      && (mode == StringA || mode == StringW ==> cache == [])
    }

    constructor ()
      ensures Valid() && storage == [] && cache == [] && cachedA == [] && cachedW == []
    {
      storage, cache, mode, cachedA, cachedW := [], [], StringA, [], [];
    }

    /** `_switchReadingMode`: another way of reading starts without any cached input. */
    method SwitchMode(m: Mode)
      requires Valid()
      modifies this`mode, this`cache, this`cachedA, this`cachedW
      ensures Valid() && mode == m
      ensures old(mode) == m ==> unchanged(this)
      ensures old(mode) != m ==> cache == [] && cachedA == [] && cachedW == []
    {
      if mode != m {
        cache, cachedA, cachedW := [], [], [];
        mode := m;
      }
    }

    // ---------------------------------------------------------------------------------------
    // Events
    // ---------------------------------------------------------------------------------------

    /** The events cached for this kind of read: reading in another way forgets them. */
    ghost function Backlog(r: Request): seq<Event>
      reads this
    {
      if mode == ModeOf(r) then cache else []
    }

    /** Everything a read of this kind has yet to see. */
    ghost function Offered(r: Request, enc: Encoder): seq<Event>
      reads this
    {
      Backlog(r) + Flatten(Units(storage, r, enc))
    }

    /** `Read`. Removing reads take the next events of the stream and leave the others, in order; a peek returns
        the same events, and leaves the stream as it was unless its last unit was cut. A read fails exactly if a record it
        reaches has no encoding, and has then already lost what it took from the cache. */
    method Read(amount: nat, peek: bool, r: Request, enc: Encoder) returns (ok: bool, out: seq<Event>)
      requires Valid()
      modifies this
      ensures Valid() && mode == (if r.unicode then EventsW else EventsA)
      ensures ok <==> ReachConverts(old(storage), r, enc, amount - |old(Backlog(r))|)
      ensures ok ==> out == old(Offered(r, enc))[..Min(amount, |old(Offered(r, enc))|)]
      ensures ok && !peek ==> Offered(r, enc) == old(Offered(r, enc))[|out|..]
      ensures !ok || peek ==> storage == old(storage)
      ensures !ok ==> Backlog(r) == old(Backlog(r))[if peek then 0 else Min(amount, |old(Backlog(r))|)..]
      ensures ok && peek ==>
                (Offered(r, enc) == old(Offered(r, enc)) <==>
                 amount <= |old(Backlog(r))| ||
                 !Overshoots(old(Units(storage, r, enc)), amount - |old(Backlog(r))|))
    {
      hide Units, Overshoots, Flatten, ReachConverts;
      SwitchMode(if r.unicode then EventsW else EventsA);
      ok, out, cache, storage := ReadEvents(cache, storage, amount, peek, r, enc);
    }

    /** `_WriteBuffer`: one event at a time, only a lone event may be coalesced. */
    method WriteBuffer(events: seq<Event>) returns (written: nat)
      requires Valid()
      modifies this`storage
      ensures Valid() && storage == Stored(old(storage), events) && written == |events|
    {
      written := 0;
      while written < |events|
        invariant written <= |events|
        invariant storage == old(storage) + events[..written]
        invariant |events| == 1 && written == 1 ==> !Merges(old(storage), events)
      {
        var e := events[written];
        var n := |storage|;
        if |events| == 1 && n != 0 {
          var ok, merged := Coalesce(storage[n - 1], e);
          if ok {
            storage := storage[..n - 1] + [merged];
            written := written + 1;
            return;
          }
        }
        storage := storage + [e];
        written := written + 1;
      }
      assert events[..written] == events;
    }

    ghost function Here(r: Request): View
      reads this
    {
      View(Backlog(r), storage)
    }

    /** One call of a run. A peek's events are not counted as returned. A clean call moves events from what is there to
        what is returned, or adds what is written. */
    method ServeOne(call: Call, r: Request, enc: Encoder) returns (ok: bool, out: seq<Event>)
      requires Valid()
      modifies this
      ensures Valid()
      ensures ok && Clean(call, old(Here(r)), r, enc) ==>
                out + Offered(r, enc) == old(Offered(r, enc)) + Flatten(Units(PutBy(call), r, enc))
      ensures ok ==> Follows(old(Here(r)), call, Here(r))
      ensures AlwaysConverts(r, enc) ==> ok
    {
      hide Units, Flatten, Overshoots, Clean, Stored, Valid, AlwaysConverts;
      out := [];
      NothingPut(r, enc);
      CleanMeans(call, Here(r), r, enc);
      match call {
        case Take(amount) =>
          ok, out := TakeEvents(amount, r, enc);
        case Peek(amount) =>
          ok := PeekEvents(amount, r, enc);
        case Put(events) =>
          ok := true;
          var written := WriteBuffer(events);
      }
    }

    method TakeEvents(amount: nat, r: Request, enc: Encoder) returns (ok: bool, out: seq<Event>)
      requires Valid()
      modifies this
      ensures Valid()
      ensures ok ==> out + Offered(r, enc) == old(Offered(r, enc))
      ensures AlwaysConverts(r, enc) ==> ok
    {
      hide Units, Flatten, Overshoots, ReachConverts, Valid, AlwaysConverts;
      if AlwaysConverts(r, enc) {
        AlwaysReached(storage, r, enc, amount - |Backlog(r)|);
      }
      ok, out := Read(amount, false, r, enc);
    }

    method PeekEvents(amount: nat, r: Request, enc: Encoder) returns (ok: bool)
      requires Valid()
      modifies this
      ensures Valid()
      ensures ok ==> storage == old(storage)
      ensures ok && (amount <= |old(Backlog(r))| ||
                     !Overshoots(old(Units(storage, r, enc)), amount - |old(Backlog(r))|)) ==>
                Offered(r, enc) == old(Offered(r, enc))
      ensures AlwaysConverts(r, enc) ==> ok
    {
      hide Units, Flatten, Overshoots, ReachConverts, Valid, AlwaysConverts;
      if AlwaysConverts(r, enc) {
        AlwaysReached(storage, r, enc, amount - |Backlog(r)|);
      }
      var out;
      ok, out := Read(amount, true, r, enc);
    }

    /** Any run of removing reads, peeks and writes. `seen` is what each call finds, and what there is in the end. If every
        call is clean where it happens, what the reads return, followed by what is still there, is what was there before
        followed by what was written: nothing is lost, duplicated or reordered. */
    method Serve(calls: seq<Call>, r: Request, enc: Encoder) returns (ok: bool, out: seq<Event>, ghost seen: seq<View>)
      requires Valid()
      modifies this
      ensures Valid()
      ensures ok ==> |seen| == |calls| + 1 && seen[0] == old(Here(r)) && seen[|calls|] == Here(r)
      ensures ok ==> forall i :: 0 <= i < |calls| ==> Follows(seen[i], calls[i], seen[i + 1])
      ensures ok && (forall i :: 0 <= i < |calls| ==> Clean(calls[i], seen[i], r, enc)) ==>
                out + Offered(r, enc) == old(Offered(r, enc)) + Flatten(Units(Puts(calls), r, enc))
      ensures AlwaysConverts(r, enc) ==> ok
    {
      hide Units, Flatten, Valid, Clean, Follows, AlwaysConverts;
      out, ok, seen := [], true, [Here(r)];
      NothingPut(r, enc);
      var i := 0;
      assert calls[..0] == [];
      while i < |calls|
        invariant 0 <= i <= |calls| && Valid() && ok
        invariant |seen| == i + 1 && seen[0] == old(Here(r)) && seen[i] == Here(r)
        invariant forall j :: 0 <= j < i ==> Follows(seen[j], calls[j], seen[j + 1])
        invariant (forall j :: 0 <= j < i ==> Clean(calls[j], seen[j], r, enc)) ==>
                    out + Offered(r, enc) == old(Offered(r, enc)) + Flatten(Units(Puts(calls[..i]), r, enc))
      {
        ghost var offered, before := Offered(r, enc), seen;
        var more;
        ok, more := ServeOne(calls[i], r, enc);
        if !ok {
          return;
        }
        if forall j :: 0 <= j < i + 1 ==> Clean(calls[j], before[j], r, enc) {
          assert Clean(calls[i], before[i], r, enc);
          RunNext(calls, i, r, enc, old(Offered(r, enc)), out, offered, more, Offered(r, enc));
        }
        out, seen := out + more, seen + [Here(r)];
        i := i + 1;
      }
      assert calls[..i] == calls;
    }

    /** Reading a lone record: which events come out, one by one. Event `k` of press `i` is the record, with its repeat count
        taken out of a stream, and in a multibyte read with byte `k` of its character. */
    method ReadOneRecord(e: Event, amount: nat, r: Request, enc: Encoder, ghost i: nat, ghost k: nat)
      returns (out: seq<Event>)
      requires Valid() && storage == [e] && Backlog(r) == [] && (e.Key? && !r.unicode ==> enc(e.ch) != [])
      requires i < (if e.Key? && r.stream && e.repeat > 1 then e.repeat else 1)
      requires k < (if e.Key? && !r.unicode then |enc(e.ch)| else 1)
      modifies this
      ensures var times := if e.Key? && r.stream && e.repeat > 1 then e.repeat else 1;
              var one := if e.Key? && r.stream then e.(repeat := 1) else e;
              if e.Key? && !r.unicode then
                var bytes := enc(e.ch);
                && |out| == Min(amount, times * |bytes|) && 0 <= i * |bytes| + k
                && (i * |bytes| + k < |out| ==> out[i * |bytes| + k] == one.(ch := bytes[k]))
              else
                |out| == Min(amount, times) && (i < |out| ==> out[i] == one)
      ensures |out| <= |old(Offered(r, enc))| && Offered(r, enc) == old(Offered(r, enc))[|out|..]
    {
      hide Units, Flatten, Overshoots, ReachConverts, Valid;
      OneRecordStream(e, r, enc, i, k);
      AllConvert([e], r, enc, amount - |Backlog(r)|);
      ghost var offered := Flatten(Units([e], r, enc));
      assert [] + offered == offered;
      var ok;
      ok, out := Read(amount, false, r, enc);
    }

    /** A record without an encoding behind a cached event: the read fails, and the cached event is gone. */
    method FailingReadLosesEvent(cached: Event, bad: Event, enc: Encoder) returns (ok: bool)
      requires Valid() && mode == EventsA && cache == [cached] && storage == [bad] && bad.Key? && enc(bad.ch) == []
      modifies this
      ensures !ok && cache == [] && storage == [bad]
    {
      var r := Request(false, false);
      UnconvertedFails(storage, r, enc, 1);
      var out;
      ok, out := Read(2, false, r, enc);
    }

    // ---------------------------------------------------------------------------------------
    // Text
    // ---------------------------------------------------------------------------------------

    ghost function BacklogW(): seq<int>
      reads this
    {
      if mode == StringW then cachedW else []
    }

    ghost function BacklogA(): seq<int>
      reads this
    {
      if mode == StringA then cachedA else []
    }

    /** `Consume` into a Unicode reader: whole units, cached ones first. */
    method ConsumeWide(source: seq<int>, room: nat) returns (written: seq<int>, rest: seq<int>)
      requires Valid()
      modifies this
      ensures Valid() && mode == StringW && storage == old(storage)
      ensures IsSuffix(rest, source)
      ensures var pending := old(BacklogW()) + source;
              var n := Min(room / 2, |pending|);
              written == WideBytes(pending[..n]) && cachedW + rest == pending[n..]
    {
      SwitchMode(StringW);
      written, cachedW, rest := CopyUnits(cachedW, source, room);
    }

    /** Whatever room each call offers, all calls together copy out the text in order. */
    method ConsumeAllWide(source: seq<int>, rooms: seq<nat>) returns (written: seq<int>, rest: seq<int>)
      requires Valid()
      modifies this
      ensures Valid() && IsSuffix(rest, source)
      ensures written + WideBytes(BacklogW() + rest) == WideBytes(old(BacklogW()) + source)
    {
      hide WideBytes, Valid;
      NoBytes();
      written, rest := [], source;
      var i := 0;
      while i < |rooms|
        invariant 0 <= i <= |rooms| && Valid() && IsSuffix(rest, source)
        invariant written + WideBytes(BacklogW() + rest) == WideBytes(old(BacklogW()) + source)
      {
        ghost var pending, before := BacklogW() + rest, rest;
        var more;
        more, rest := ConsumeWide(rest, rooms[i]);
        SuffixOfSuffix(rest, before, source);
        WideCut(pending, Min(rooms[i] / 2, |pending|));
        NextPiece(WideBytes(old(BacklogW()) + source), written, WideBytes(pending), more, WideBytes(BacklogW() + rest));
        written := written + more;
        i := i + 1;
      }
    }

    /** `Consume` into a multibyte reader. What is written is always the next part of the encoded text; what stays
        behind is the remainder of it exactly when the cut is clean. */
    method ConsumeNarrow(source: seq<int>, room: nat, enc: PointEncoder) returns (written: seq<int>, rest: seq<int>)
      requires Valid() && Encodes(enc)
      modifies this
      ensures Valid() && mode == StringA && storage == old(storage)
      ensures IsSuffix(rest, source)
      ensures var pending := old(BacklogA()) + Encode(source, enc);
              && written == pending[..Min(room, |pending|)]
              && (cachedA + Encode(rest, enc) == pending[|written|..] <==>
                  CutsCleanly(source, enc, room - |old(BacklogA())|))
    {
      hide Encode, CutsCleanly, PointsToFill, UnitsToFill, Encodes;
      SwitchMode(StringA);
      ghost var cached := cachedA;
      written, cachedA := Transfer(cachedA, room);
      rest := source;
      var left := room - |written|;
      if source == [] || left == 0 {
        StopsEarly(cached, source, enc, room);
        return;
      }
      assert cached[..|cached|] == cached && cachedA == [];
      var all := EncodeAll(source, enc);
      if 0 < |all| <= left {
        written, rest := written + all, [];
        FastPath(cached, source, enc, left);
        return;
      }
      EncodeNonEmpty(source, enc);
      var more, slice, points := EncodeStepwise(source, left, enc);
      ghost var units := UnitsToFill(source, enc, left);
      cachedA := slice;
      written, rest := written + more, source[points..];
      SlowPath(cached, source, enc, left, more, slice, points);
    }

    /** Whatever room each call offers, all calls together write the encoding of a text without surrogate pairs: the bytes
        written, those cached and the encoding of what is left are what there was to write. */
    method ConsumeAllNarrow(source: seq<int>, rooms: seq<nat>, enc: PointEncoder)
      returns (written: seq<int>, rest: seq<int>)
      requires Valid() && Encodes(enc) && NoPairs(source)
      modifies this
      ensures Valid() && IsSuffix(rest, source)
      ensures written + (BacklogA() + Encode(rest, enc)) == old(BacklogA()) + Encode(source, enc)
    {
      hide Encode, CutsCleanly, Encodes, Valid, NoPairs;
      written, rest := [], source;
      var i := 0;
      while i < |rooms|
        invariant 0 <= i <= |rooms| && Valid() && IsSuffix(rest, source) && NoPairs(rest)
        invariant written + (BacklogA() + Encode(rest, enc)) == old(BacklogA()) + Encode(source, enc)
      {
        ghost var pending, before := BacklogA() + Encode(rest, enc), rest;
        NoPairsCutCleanly(rest, enc, rooms[i] - |BacklogA()|);
        var more;
        more, rest := ConsumeNarrow(rest, rooms[i], enc);
        SuffixOfSuffix(rest, before, source);
        NoPairsInSuffix(rest, before);
        NextPiece(old(BacklogA()) + Encode(source, enc), written, pending, more, BacklogA() + Encode(rest, enc));
        written := written + more;
        i := i + 1;
      }
    }
  }

  /** A read, once the reading mode is settled: cached events first, then records, and what is too much is cached. */
  method ReadEvents(cache0: seq<Event>, storage0: seq<Event>, amount: nat, peek: bool, r: Request, enc: Encoder)
    returns (ok: bool, out: seq<Event>, cache: seq<Event>, storage: seq<Event>)
    ensures ok <==> ReachConverts(storage0, r, enc, amount - |cache0|)
    ensures var offered := cache0 + Flatten(Units(storage0, r, enc));
            && (ok ==> out == offered[..Min(amount, |offered|)])
            && (ok && !peek ==> cache + Flatten(Units(storage, r, enc)) == offered[|out|..])
            && (ok && peek ==>
                  (cache + Flatten(Units(storage, r, enc)) == offered <==>
                   amount <= |cache0| || !Overshoots(Units(storage0, r, enc), amount - |cache0|)))
    ensures !ok || peek ==> storage == storage0
    ensures !ok ==> cache == cache0[if peek then 0 else Min(amount, |cache0|)..]
  {
    hide Units, Overshoots, Flatten, ReachConverts;
    var m := Min(amount, |cache0|);
    EnoughReached(storage0, r, enc, amount - |cache0|);
    EnoughReached(storage0, r, enc, amount - m);
    cache, storage := if peek then cache0 else cache0[m..], storage0;
    var full, left;
    ok, full, left := ReadLoop(storage0, cache0[..m], amount, peek, r, enc);
    out := full;
    if !ok {
      return;
    }
    storage := left;
    if |full| > amount {
      cache := cache + full[amount..];
      out := full[..amount];
    }
    TakeAndDrop(cache0, Units(storage0, r, enc), amount);
    if peek {
      PeekedSurplus(cache0, Units(storage0, r, enc), amount);
    }
  }

  /** Copying units into a Unicode reader's room: cached ones first, then the source. */
  method CopyUnits(cached0: seq<int>, source: seq<int>, room: nat)
    returns (written: seq<int>, cached: seq<int>, rest: seq<int>)
    ensures IsSuffix(rest, source) && IsSuffix(cached, cached0)
    ensures var pending := cached0 + source;
            var n := Min(room / 2, |pending|);
            written == WideBytes(pending[..n]) && cached + rest == pending[n..]
  {
    hide WideBytes;
    TakeInTurn(cached0, source, room / 2);
    var m := Min(room / 2, |cached0|);
    written := ToBytes(cached0[..m]);
    cached, rest := cached0[m..], source;
    var left := room - 2 * m;
    if source == [] || left == 0 {
      assert cached0[..m] + source[..0] == cached0[..m] && source[0..] == source;
      return;
    }
    var k := Min(left / 2, |source|);
    WideBytesConcat(cached0[..m], source[..k]);
    var more := ToBytes(source[..k]);
    written, rest := written + more, source[k..];
  }

  /** The calls of a run. */
  datatype Call = Take(amount: nat) | Peek(amount: nat) | Put(events: seq<Event>)

  ghost function PutBy(call: Call): seq<Event> {
    if call.Put? then call.events else []
  }

  ghost function Puts(calls: seq<Call>): seq<Event> {
    if calls == [] then [] else Puts(calls[..|calls| - 1]) + PutBy(calls[|calls| - 1])
  }

  /** Might be merged into a record stored before. */
  ghost predicate Mergeable(e: Event) {
    (e.Mouse? && e.flags == MOUSE_MOVED) || (e.Key? && e.down && !IsSurrogate(e.ch))
  }

  /** Peeks are for Unicode readers, and what may be merged is not written alone. */
  ghost predicate Steady(call: Call, r: Request) {
    match call
    case Take(_) => true
    case Peek(_) => r.unicode
    case Put(events) => |events| == 1 ==> !Mergeable(events[0])
  }

  /** What a call finds: the events cached for its kind of read, and the records. */
  datatype View = View(backlog: seq<Event>, storage: seq<Event>)

  /** A peek that cuts no unit, and a write that is not merged, or only invisibly. */
  ghost predicate Clean(call: Call, v: View, r: Request, enc: Encoder) {
    match call
    case Take(_) => true
    case Peek(amount) => amount <= |v.backlog| || !Overshoots(Units(v.storage, r, enc), amount - |v.backlog|)
    case Put(events) => !Merges(v.storage, events) || Invisible(v.storage[|v.storage| - 1], events[0], r)
  }

  lemma CleanMeans(call: Call, v: View, r: Request, enc: Encoder)
    ensures call.Peek? ==> (Clean(call, v, r, enc) <==>
              call.amount <= |v.backlog| || !Overshoots(Units(v.storage, r, enc), call.amount - |v.backlog|))
    ensures call.Put? && Clean(call, v, r, enc) ==>
              Flatten(Units(Stored(v.storage, call.events), r, enc)) ==
              Flatten(Units(v.storage, r, enc)) + Flatten(Units(call.events, r, enc))
  {
    hide Units, Flatten, Overshoots, Stored, Merges, Invisible;
    if call.Put? && Clean(call, v, r, enc) {
      CleanWriteAppends(v.storage, call.events, r, enc);
    }
  }

  /** Peeks leave the records alone; writes leave the cache alone. */
  ghost predicate Follows(v: View, call: Call, v': View) {
    match call
    case Take(_) => true
    case Peek(_) => v'.storage == v.storage
    case Put(events) => v' == View(v.backlog, Stored(v.storage, events))
  }

  /** Steady calls are clean wherever they happen. */
  lemma SteadyIsClean(call: Call, v: View, r: Request, enc: Encoder)
    requires Steady(call, r)
    ensures Clean(call, v, r, enc)
  {
    hide Units, Overshoots;
    if call.Peek? && call.amount >= |v.backlog| {
      UnicodeNeverOvershoots(v.storage, r, enc, call.amount - |v.backlog|);
    }
  }

  lemma NothingPut(r: Request, enc: Encoder)
    ensures Flatten(Units([], r, enc)) == []
  {
  }

  lemma RunNext(calls: seq<Call>, i: nat, r: Request, enc: Encoder, start: seq<Event>, out: seq<Event>,
                before: seq<Event>, more: seq<Event>, after: seq<Event>)
    requires i < |calls|
    requires out + before == start + Flatten(Units(Puts(calls[..i]), r, enc))
    requires more + after == before + Flatten(Units(PutBy(calls[i]), r, enc))
    ensures out + more + after == start + Flatten(Units(Puts(calls[..i + 1]), r, enc))
  {
    hide Units, Flatten;
    assert calls[..i + 1][..i] == calls[..i];
    FlatUnits(Puts(calls[..i]), PutBy(calls[i]), r, enc);
    assert out + more + after == out + (more + after) == (out + before) + Flatten(Units(PutBy(calls[i]), r, enc));
  }

  lemma NextPiece(total: seq<int>, written: seq<int>, pending: seq<int>, more: seq<int>, after: seq<int>)
    requires written + pending == total && |more| <= |pending|
    requires more == pending[..|more|] && after == pending[|more|..]
    ensures (written + more) + after == total
  {
  }

  lemma WideCut(s: seq<int>, n: nat)
    requires n <= |s|
    ensures WideBytes(s) == WideBytes(s[..n]) + WideBytes(s[n..])
  {
    assert s == s[..n] + s[n..];
    WideBytesConcat(s[..n], s[n..]);
  }
}
