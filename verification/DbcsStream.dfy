/** Decoding double-byte text that arrives in chunks: a lead byte at the end of one write waits for its trail byte in
    the next. */
module DbcsStream {

  /** A code page: its lead-byte ranges, as pairs of bounds ended by a zero, and its conversions. */
  datatype CodePage = CodePage(ranges: seq<int>, one: int -> int, two: (int, int) -> int, width: int -> nat)

  /** The table ends with two zero bytes and bounds are not negative. */
  ghost predicate Terminated(ranges: seq<int>) {
    && |ranges| >= 2 && |ranges| % 2 == 0
    && ranges[|ranges| - 2] == 0 && ranges[|ranges| - 1] == 0
    && forall i :: 0 <= i < |ranges| ==> 0 <= ranges[i]
  }

  ghost function InRanges(ranges: seq<int>, b: int): bool {
    if |ranges| < 2 || ranges[0] == 0 then false
    else ranges[0] <= b <= ranges[1] || InRanges(ranges[2..], b)
  }

  ghost predicate IsLead(cp: CodePage, b: int) {
    InRanges(cp.ranges, b)
  }

  /** The pair of bounds at `i` encloses the byte, and no pair up to there is the end of the table. */
  ghost predicate EnclosedAt(ranges: seq<int>, b: int, i: int) {
    && 0 <= i < |ranges| - 1 && i % 2 == 0 && ranges[i] <= b <= ranges[i + 1]
    && forall j :: 0 <= j <= i && j % 2 == 0 ==> ranges[j] != 0
  }

  /** A byte is in the ranges exactly if one of the pairs of bounds in front of the first zero encloses it. */
  lemma {:induction false} RangesMean(ranges: seq<int>, b: int)
    ensures InRanges(ranges, b) <==> exists i :: EnclosedAt(ranges, b, i)
    decreases |ranges|
  {
    if |ranges| >= 2 && ranges[0] != 0 {
      var rest := ranges[2..];
      RangesMean(rest, b);
      if ranges[0] <= b <= ranges[1] {
        assert EnclosedAt(ranges, b, 0);
      }
      if i :| EnclosedAt(rest, b, i) {
        Shifted(ranges, b, i + 2);
      }
      if i :| EnclosedAt(ranges, b, i) {
        if i >= 2 {
          Shifted(ranges, b, i);
        }
      }
    }
  }

  lemma Shifted(ranges: seq<int>, b: int, i: int)
    requires |ranges| >= 2 && ranges[0] != 0 && i >= 2
    ensures EnclosedAt(ranges, b, i) <==> EnclosedAt(ranges[2..], b, i - 2)
  {
    var rest := ranges[2..];
    assert forall j :: 0 <= j < |rest| ==> rest[j] == ranges[j + 2];
    if EnclosedAt(rest, b, i - 2) {
      forall j | 0 <= j <= i && j % 2 == 0
        ensures ranges[j] != 0
      {
        if j >= 2 {
          assert rest[j - 2] == ranges[j];
        }
      }
    }
  }

  /** Converting back tells how many bytes each character came from. */
  ghost predicate LengthPreserving(cp: CodePage) {
    && Terminated(cp.ranges)
    && (forall b :: cp.width(cp.one(b)) == 1)
    && forall l, t :: cp.width(cp.two(l, t)) == 2
  }

  lemma {:induction false} LeadIsNotZero(ranges: seq<int>, b: int)
    requires InRanges(ranges, b) && forall i :: 0 <= i < |ranges| ==> 0 <= ranges[i]
    ensures b > 0
    decreases |ranges|
  {
    if !(ranges[0] <= b <= ranges[1]) {
      LeadIsNotZero(ranges[2..], b);
    }
  }

  /** `IsDBCSLeadByteConsole`: scan the table up to its terminator. */
  method IsLeadByte(cp: CodePage, b: int) returns (r: bool)
    requires Terminated(cp.ranges)
    ensures r == IsLead(cp, b)
  {
    var i := 0;
    assert cp.ranges[0..] == cp.ranges;
    while cp.ranges[i] != 0
      invariant 0 <= i <= |cp.ranges| - 2 && i % 2 == 0
      invariant IsLead(cp, b) == InRanges(cp.ranges[i..], b)
      decreases |cp.ranges| - i
    {
      if cp.ranges[i] <= b && b <= cp.ranges[i + 1] {
        return true;
      }
      assert cp.ranges[i..][2..] == cp.ranges[i + 2..];
      i := i + 2;
    }
    return false;
  }

  /** Text, and the bytes (at most one) that still wait for company. */
  datatype Decoded = Decoded(text: seq<int>, pending: seq<int>)

  /** Decoding in one go. */
  ghost function Decode(cp: CodePage, bytes: seq<int>): (d: Decoded)
    ensures |d.pending| <= |bytes| && |d.pending| <= 1
    ensures d.pending != [] ==> IsLead(cp, d.pending[0]) && d.pending[0] == bytes[|bytes| - 1]
  {
    if bytes == [] then Decoded([], [])
    else if !IsLead(cp, bytes[0]) then
      var d := Decode(cp, bytes[1..]);
      Decoded([cp.one(bytes[0])] + d.text, d.pending)
    else if |bytes| == 1 then Decoded([], bytes)
    else
      var d := Decode(cp, bytes[2..]);
      Decoded([cp.two(bytes[0], bytes[1])] + d.text, d.pending)
  }

  lemma DecodeSingle(cp: CodePage, bytes: seq<int>)
    requires bytes != [] && !IsLead(cp, bytes[0])
    ensures var d := Decode(cp, bytes[1..]); Decode(cp, bytes) == Decoded([cp.one(bytes[0])] + d.text, d.pending)
  {
  }

  lemma DecodePair(cp: CodePage, bytes: seq<int>)
    requires |bytes| > 1 && IsLead(cp, bytes[0])
    ensures var d := Decode(cp, bytes[2..]);
            Decode(cp, bytes) == Decoded([cp.two(bytes[0], bytes[1])] + d.text, d.pending)
  {
  }

  lemma DecodeShort(cp: CodePage, bytes: seq<int>)
    ensures bytes == [] ==> Decode(cp, bytes) == Decoded([], [])
    ensures |bytes| == 1 && IsLead(cp, bytes[0]) ==> Decode(cp, bytes) == Decoded([], bytes)
  {
  }

  lemma Glue(x: int, a: seq<int>, b: seq<int>)
    ensures [x] + (a + b) == ([x] + a) + b
  {
  }

  /** Decoding can be resumed with what was pending. */
  lemma {:induction false} DecodeConcat(cp: CodePage, a: seq<int>, b: seq<int>)
    ensures var first := Decode(cp, a);
            var second := Decode(cp, first.pending + b);
            Decode(cp, a + b) == Decoded(first.text + second.text, second.pending)
    decreases |a|
  {
    hide Decode, IsLead, InRanges;
    var second := Decode(cp, Decode(cp, a).pending + b);
    if a == [] {
      DecodeShort(cp, a);
      assert a + b == b && [] + b == b && [] + second.text == second.text;
    } else if !IsLead(cp, a[0]) {
      DecodeConcat(cp, a[1..], b);
      DecodeSingle(cp, a);
      DecodeSingle(cp, a + b);
      assert (a + b)[1..] == a[1..] + b;
      Glue(cp.one(a[0]), Decode(cp, a[1..]).text, second.text);
    } else if |a| == 1 {
      DecodeShort(cp, a);
      assert [] + second.text == second.text;
    } else {
      DecodeConcat(cp, a[2..], b);
      DecodePair(cp, a);
      DecodePair(cp, a + b);
      assert (a + b)[2..] == a[2..] + b;
      Glue(cp.two(a[0], a[1]), Decode(cp, a[2..]).text, second.text);
    }
  }

  function Sum(cp: CodePage, text: seq<int>): nat {
    if text == [] then 0 else cp.width(text[0]) + Sum(cp, text[1..])
  }

  lemma {:induction false} SumConcat(cp: CodePage, a: seq<int>, b: seq<int>)
    ensures Sum(cp, a + b) == Sum(cp, a) + Sum(cp, b)
  {
    if a == [] {
      assert a + b == b;
    } else {
      assert (a + b)[1..] == a[1..] + b;
      SumConcat(cp, a[1..], b);
    }
  }

  lemma SumCons(cp: CodePage, x: int, text: seq<int>)
    ensures Sum(cp, [x] + text) == cp.width(x) + Sum(cp, text)
  {
    assert ([x] + text)[1..] == text;
  }

  lemma PairWidth(cp: CodePage, lead: int, trail: int)
    requires LengthPreserving(cp)
    ensures cp.width(cp.two(lead, trail)) == 2
  {
  }

  /** Every byte is either in the text or pending. */
  lemma {:induction false} DecodeCounts(cp: CodePage, bytes: seq<int>)
    requires LengthPreserving(cp)
    ensures Sum(cp, Decode(cp, bytes).text) + |Decode(cp, bytes).pending| == |bytes|
    decreases |bytes|
  {
    hide Decode, IsLead;
    if bytes == [] {
      DecodeShort(cp, bytes);
    } else if !IsLead(cp, bytes[0]) {
      DecodeCounts(cp, bytes[1..]);
      DecodeSingle(cp, bytes);
      SumCons(cp, cp.one(bytes[0]), Decode(cp, bytes[1..]).text);
    } else if |bytes| == 1 {
      DecodeShort(cp, bytes);
    } else {
      DecodeCounts(cp, bytes[2..]);
      DecodePair(cp, bytes);
      SumCons(cp, cp.two(bytes[0], bytes[1]), Decode(cp, bytes[2..]).text);
      PairWidth(cp, bytes[0], bytes[1]);
    }
  }

  /** `CheckBisectStringA`: does the string end in the middle of a character? */
  method CheckBisect(cp: CodePage, bytes: seq<int>) returns (r: bool)
    requires Terminated(cp.ranges)
    ensures r <==> Decode(cp, bytes).pending != []
  {
    var at := 0;
    assert bytes[0..] == bytes;
    while at < |bytes|
      invariant 0 <= at <= |bytes|
      invariant Decode(cp, bytes).pending == Decode(cp, bytes[at..]).pending
    {
      var lead := IsLeadByte(cp, bytes[at]);
      hide Decode, IsLead;
      if lead {
        if |bytes| - at <= 1 {
          assert bytes[at..] == [bytes[at]];
          DecodeShort(cp, [bytes[at]]);
          return true;
        }
        assert bytes[at..][2..] == bytes[at + 2..];
        DecodePair(cp, bytes[at..]);
        at := at + 2;
      } else {
        assert bytes[at..][1..] == bytes[at + 1..];
        DecodeSingle(cp, bytes[at..]);
        at := at + 1;
      }
    }
    assert bytes[at..] == [];
    return false;
  }

  /** The conversion of a string that is not cut: one character at a time. */
  method MultiByteToWide(cp: CodePage, bytes: seq<int>) returns (text: seq<int>)
    requires Terminated(cp.ranges) && Decode(cp, bytes).pending == []
    ensures text == Decode(cp, bytes).text
  {
    hide Decode, IsLead;
    text := [];
    var at := 0;
    assert bytes[0..] == bytes;
    while at < |bytes|
      invariant 0 <= at <= |bytes| && Decode(cp, bytes[at..]).pending == []
      invariant Decode(cp, bytes).text == text + Decode(cp, bytes[at..]).text
    {
      var lead := IsLeadByte(cp, bytes[at]);
      ghost var rest := bytes[at..];
      if lead {
        DecodeShort(cp, rest);
        DecodePair(cp, rest);
        assert rest[2..] == bytes[at + 2..];
        text := text + [cp.two(bytes[at], bytes[at + 1])];
        at := at + 2;
      } else {
        DecodeSingle(cp, rest);
        assert rest[1..] == bytes[at + 1..];
        text := text + [cp.one(bytes[at])];
        at := at + 1;
      }
    }
    DecodeShort(cp, bytes[at..]);
  }

  // ---------------------------------------------------------------------------------------
  // Chunks
  // ---------------------------------------------------------------------------------------

  ghost const SPACE: int := 0x20

  /** A stored lead byte is given up when the next chunk begins with a control byte. */
  ghost predicate GivesUp(stored: seq<int>, chunk: seq<int>) {
    stored != [] && chunk != [] && chunk[0] < SPACE
  }

  ghost function Kept(stored: seq<int>, chunk: seq<int>): seq<int> {
    if GivesUp(stored, chunk) then [] else stored
  }

  class Output {
    var lead: int

    constructor ()
      ensures lead == 0
    {
      lead := 0;
    }

    /** The stored lead byte as a string. */
    ghost function Stored(): seq<int>
      reads this
    {
      if lead == 0 then [] else [lead]
    }

    /** The non-UTF-8 branch of `WriteConsoleAImpl`: decode a chunk after what was stored, store what is left over,
        and report as many bytes as were handed in. */
    method WriteConsoleA(cp: CodePage, chunk: seq<int>) returns (text: seq<int>, read: int)
      requires LengthPreserving(cp) && (lead == 0 || IsLead(cp, lead))
      modifies this
      ensures lead == 0 || IsLead(cp, lead)
      ensures chunk == [] ==> text == [] && lead == old(lead)
      ensures chunk != [] ==> Decoded(text, Stored()) == Decode(cp, old(Kept(Stored(), chunk)) + chunk)
      ensures read == |chunk|
    {
      hide Decode, InRanges, LengthPreserving;
      ResultOf(cp);
      if chunk == [] {
        return [], 0;
      }
      ghost var stored := Stored();
      var front, rest := [], chunk;
      var consumed, captured := false, false;
      if lead != 0 && chunk[0] >= 0x20 {
        front, rest := [cp.two(lead, chunk[0])], chunk[1..];
        consumed := true;
      }
      lead := 0;
      ghost var whole := rest;
      PendingIsLast(cp, whole);
      var cut := false;
      if rest != [] {
        cut := CheckBisect(cp, rest);
      }
      if cut {
        lead := rest[|rest| - 1];
        rest := rest[..|rest| - 1];
        captured := true;
      }
      UncutPart(cp, whole, rest);
      var tail := MultiByteToWide(cp, rest);
      text := front + tail;
      AfterStored(cp, stored, chunk, front, whole, text);
      read := Sum(cp, text) + (if captured then 1 else 0) - (if consumed then 1 else 0);
      Reported(cp, old(Kept(Stored(), chunk)) + chunk, text, Stored());
    }

    /** A run of calls, one for each chunk: together they decode what `Written` says, and each reports its own size. */
    method WriteAll(cp: CodePage, chunks: seq<seq<int>>) returns (text: seq<int>, counts: seq<int>)
      requires LengthPreserving(cp) && (lead == 0 || IsLead(cp, lead))
      modifies this
      ensures lead == 0 || IsLead(cp, lead)
      ensures Decoded(text, Stored()) == Written(cp, old(Stored()), chunks)
      ensures |counts| == |chunks| && forall i :: 0 <= i < |chunks| ==> counts[i] == |chunks[i]|
    {
      hide Decode, IsLead, LengthPreserving, Written;
      text, counts := [], [];
      var i := 0;
      assert chunks[0..] == chunks;
      WrittenFrom(cp, Stored(), chunks);
      while i < |chunks|
        invariant 0 <= i <= |chunks| && (lead == 0 || IsLead(cp, lead))
        invariant Written(cp, old(Stored()), chunks) == Joint(text, Written(cp, Stored(), chunks[i..]))
        invariant |counts| == i && forall j :: 0 <= j < i ==> counts[j] == |chunks[j]|
      {
        ghost var stored := Stored();
        var more, read := WriteConsoleA(cp, chunks[i]);
        WrittenNext(cp, stored, chunks[i..], text, more, Stored());
        assert chunks[i..][1..] == chunks[i + 1..];
        text, counts := text + more, counts + [read];
        i := i + 1;
      }
      assert chunks[i..] == [];
      WrittenFrom(cp, Stored(), []);
    }
  }

  lemma ResultOf(cp: CodePage)
    requires LengthPreserving(cp)
    ensures Terminated(cp.ranges)
  {
  }

  lemma PendingIsLast(cp: CodePage, bytes: seq<int>)
    requires Terminated(cp.ranges)
    ensures var d := Decode(cp, bytes);
            && (bytes == [] ==> d.pending == [])
            && (d.pending != [] ==> bytes != [] && d.pending == [bytes[|bytes| - 1]] && bytes[|bytes| - 1] > 0
                                    && IsLead(cp, bytes[|bytes| - 1]))
  {
    var d := Decode(cp, bytes);
    if d.pending != [] {
      LeadIsNotZero(cp.ranges, d.pending[0]);
    }
  }

  /** Without the cut-off lead byte the same text comes out, with nothing pending. */
  lemma UncutPart(cp: CodePage, whole: seq<int>, rest: seq<int>)
    requires rest == whole[..|whole| - |Decode(cp, whole).pending|]
    ensures Decode(cp, rest) == Decoded(Decode(cp, whole).text, [])
  {
    var d := Decode(cp, whole);
    if d.pending == [] {
      assert rest == whole;
    } else {
      assert whole == rest + d.pending;
      DropLast(cp, whole);
    }
  }

  lemma {:induction false} DropLast(cp: CodePage, bytes: seq<int>)
    requires Decode(cp, bytes).pending != []
    ensures bytes != [] && Decode(cp, bytes[..|bytes| - 1]) == Decoded(Decode(cp, bytes).text, [])
    decreases |bytes|
  {
    hide Decode, IsLead;
    DecodeShort(cp, bytes);
    var init := bytes[..|bytes| - 1];
    if !IsLead(cp, bytes[0]) {
      DecodeSingle(cp, bytes);
      DropLast(cp, bytes[1..]);
      assert init[1..] == bytes[1..][..|bytes| - 2];
      DecodeSingle(cp, init);
    } else if |bytes| > 1 {
      DecodePair(cp, bytes);
      DropLast(cp, bytes[2..]);
      assert init[2..] == bytes[2..][..|bytes| - 3];
      DecodePair(cp, init);
    } else {
      DecodeShort(cp, init);
    }
  }

  /** Completing the stored character first is decoding it together with the chunk. */
  lemma AfterStored(cp: CodePage, stored: seq<int>, chunk: seq<int>, front: seq<int>, whole: seq<int>, text: seq<int>)
    requires chunk != [] && |stored| <= 1 && (stored != [] ==> IsLead(cp, stored[0]))
    requires stored != [] && chunk[0] >= SPACE ==> front == [cp.two(stored[0], chunk[0])] && whole == chunk[1..]
    requires stored == [] || chunk[0] < SPACE ==> front == [] && whole == chunk
    requires text == front + Decode(cp, whole).text
    ensures Decode(cp, Kept(stored, chunk) + chunk) == Decoded(text, Decode(cp, whole).pending)
  {
    var kept := Kept(stored, chunk);
    if kept == [] {
      assert kept + chunk == chunk && [] + Decode(cp, whole).text == text;
    } else {
      assert (kept + chunk)[2..] == chunk[1..];
    }
  }

  lemma Reported(cp: CodePage, all: seq<int>, text: seq<int>, pending: seq<int>)
    requires LengthPreserving(cp) && Decode(cp, all) == Decoded(text, pending)
    ensures Sum(cp, text) + |pending| == |all|
  {
    DecodeCounts(cp, all);
  }

  // ---------------------------------------------------------------------------------------
  // Runs
  // ---------------------------------------------------------------------------------------

  /** What a run of writes decodes, given what each of them does. */
  ghost function Written(cp: CodePage, stored: seq<int>, chunks: seq<seq<int>>): Decoded
    decreases |chunks|
  {
    if chunks == [] then Decoded([], stored)
    else
      var d := Decode(cp, Kept(stored, chunks[0]) + chunks[0]);
      var later := Written(cp, d.pending, chunks[1..]);
      Decoded(d.text + later.text, later.pending)
  }

  /** `later`, with text in front of it. */
  ghost function Joint(text: seq<int>, later: Decoded): Decoded {
    Decoded(text + later.text, later.pending)
  }

  lemma WrittenFrom(cp: CodePage, stored: seq<int>, chunks: seq<seq<int>>)
    ensures Joint([], Written(cp, stored, chunks)) == Written(cp, stored, chunks)
    ensures chunks == [] ==> Written(cp, stored, chunks) == Decoded([], stored)
  {
  }

  lemma WrittenNext(cp: CodePage, stored: seq<int>, chunks: seq<seq<int>>, text: seq<int>, more: seq<int>, stored': seq<int>)
    requires chunks != [] && |stored| <= 1 && (stored != [] ==> IsLead(cp, stored[0]))
    requires chunks[0] == [] ==> more == [] && stored' == stored
    requires chunks[0] != [] ==> Decoded(more, stored') == Decode(cp, Kept(stored, chunks[0]) + chunks[0])
    ensures Joint(text, Written(cp, stored, chunks)) == Joint(text + more, Written(cp, stored', chunks[1..]))
  {
    hide Decode, IsLead;
    var later := Written(cp, stored', chunks[1..]);
    if chunks[0] == [] {
      assert stored + [] == stored;
      DecodeStored(cp, stored);
    }
    assert text + (more + later.text) == text + more + later.text;
  }

  ghost function Joined(chunks: seq<seq<int>>): seq<int> {
    if chunks == [] then [] else chunks[0] + Joined(chunks[1..])
  }

  /** No chunk begins with a control byte while a lead byte is waiting. */
  ghost predicate CleanCuts(cp: CodePage, stored: seq<int>, chunks: seq<seq<int>>)
    decreases |chunks|
  {
    chunks == [] ||
    (!GivesUp(stored, chunks[0]) && CleanCuts(cp, Decode(cp, stored + chunks[0]).pending, chunks[1..]))
  }

  lemma DecodeStored(cp: CodePage, stored: seq<int>)
    requires |stored| <= 1 && (stored != [] ==> IsLead(cp, stored[0]))
    ensures Decode(cp, stored) == Decoded([], stored)
  {
    DecodeShort(cp, stored);
  }

  /** However a stream is cut, cleanly, the pieces decode to what the whole does. */
  lemma {:induction false} ChunksDecodeWhole(cp: CodePage, stored: seq<int>, chunks: seq<seq<int>>)
    requires |stored| <= 1 && (stored != [] ==> IsLead(cp, stored[0]))
    requires CleanCuts(cp, stored, chunks)
    ensures Written(cp, stored, chunks) == Decode(cp, stored + Joined(chunks))
    decreases |chunks|
  {
    hide Decode, IsLead, InRanges, CleanCuts;
    if chunks == [] {
      assert stored + [] == stored;
      DecodeStored(cp, stored);
    } else {
      WrittenStep(cp, stored, chunks);
      ChunksDecodeWhole(cp, Decode(cp, stored + chunks[0]).pending, chunks[1..]);
      JoinedStep(cp, stored, chunks);
    }
  }

  lemma WrittenStep(cp: CodePage, stored: seq<int>, chunks: seq<seq<int>>)
    requires chunks != [] && CleanCuts(cp, stored, chunks)
    ensures var d := Decode(cp, stored + chunks[0]);
            var later := Written(cp, d.pending, chunks[1..]);
            && Written(cp, stored, chunks) == Decoded(d.text + later.text, later.pending)
            && CleanCuts(cp, d.pending, chunks[1..])
            && |d.pending| <= 1 && (d.pending != [] ==> IsLead(cp, d.pending[0]))
  {
    hide Decode, InRanges;
  }

  lemma JoinedStep(cp: CodePage, stored: seq<int>, chunks: seq<seq<int>>)
    requires chunks != []
    ensures var d := Decode(cp, stored + chunks[0]);
            var later := Decode(cp, d.pending + Joined(chunks[1..]));
            Decode(cp, stored + Joined(chunks)) == Decoded(d.text + later.text, later.pending)
  {
    hide Decode;
    DecodeConcat(cp, stored + chunks[0], Joined(chunks[1..]));
    assert stored + Joined(chunks) == stored + chunks[0] + Joined(chunks[1..]);
  }

  /** Bytes that a run loses. */
  ghost function Lost(cp: CodePage, stored: seq<int>, chunks: seq<seq<int>>): nat
    decreases |chunks|
  {
    if chunks == [] then 0
    else
      (if GivesUp(stored, chunks[0]) then |stored| else 0) +
      Lost(cp, Decode(cp, Kept(stored, chunks[0]) + chunks[0]).pending, chunks[1..])
  }

  lemma {:induction false} WrittenCounts(cp: CodePage, stored: seq<int>, chunks: seq<seq<int>>)
    requires LengthPreserving(cp)
    ensures var w := Written(cp, stored, chunks);
            Sum(cp, w.text) + |w.pending| + Lost(cp, stored, chunks) == |stored| + |Joined(chunks)|
    decreases |chunks|
  {
    hide LengthPreserving;
    if chunks != [] {
      var all := Kept(stored, chunks[0]) + chunks[0];
      var d := Decode(cp, all);
      DecodeCounts(cp, all);
      WrittenCounts(cp, d.pending, chunks[1..]);
      SumConcat(cp, d.text, Written(cp, d.pending, chunks[1..]).text);
    }
  }

  lemma {:induction false} CleanIffNothingLost(cp: CodePage, stored: seq<int>, chunks: seq<seq<int>>)
    ensures CleanCuts(cp, stored, chunks) <==> Lost(cp, stored, chunks) == 0
    decreases |chunks|
  {
    if chunks != [] {
      CleanIffNothingLost(cp, Decode(cp, Kept(stored, chunks[0]) + chunks[0]).pending, chunks[1..]);
    }
  }

  /** Chunked decoding agrees with decoding the whole stream exactly when the cuts are clean. */
  lemma AgreesIffClean(cp: CodePage, chunks: seq<seq<int>>)
    requires LengthPreserving(cp)
    ensures Written(cp, [], chunks) == Decode(cp, Joined(chunks)) <==> CleanCuts(cp, [], chunks)
  {
    hide LengthPreserving;
    assert [] + Joined(chunks) == Joined(chunks);
    CleanIffNothingLost(cp, [], chunks);
    if CleanCuts(cp, [], chunks) {
      ChunksDecodeWhole(cp, [], chunks);
    } else {
      WrittenCounts(cp, [], chunks);
      DecodeCounts(cp, Joined(chunks));
    }
  }

  /** No trail byte is a control byte: wherever the stream is cut behind a lead byte, a printable byte follows. */
  ghost predicate PrintableTrails(cp: CodePage, bytes: seq<int>) {
    forall k {:trigger bytes[..k]} :: 0 < k < |bytes| && Decode(cp, bytes[..k]).pending != [] ==> bytes[k] >= SPACE
  }

  lemma {:induction false} PrintableIsClean(cp: CodePage, done: seq<int>, chunks: seq<seq<int>>)
    requires PrintableTrails(cp, done + Joined(chunks))
    ensures CleanCuts(cp, Decode(cp, done).pending, chunks)
    decreases |chunks|
  {
    hide Decode;
    if chunks != [] {
      var whole := done + Joined(chunks);
      var stored := Decode(cp, done).pending;
      assert whole[..|done|] == done;
      assert whole == done + chunks[0] + Joined(chunks[1..]);
      PrintableIsClean(cp, done + chunks[0], chunks[1..]);
      DecodeConcat(cp, done, chunks[0]);
    }
  }

  lemma UncleanCut(cp: CodePage, bytes: seq<int>, k: nat)
    requires 0 < k < |bytes| && Decode(cp, bytes[..k]).pending != [] && bytes[k] < SPACE
    ensures Joined([bytes[..k], bytes[k..]]) == bytes
    ensures !CleanCuts(cp, [], [bytes[..k], bytes[k..]])
  {
    hide Decode;
    var chunks := [bytes[..k], bytes[k..]];
    assert chunks[1..] == [bytes[k..]] && chunks[1..][1..] == [];
    assert Joined(chunks[1..]) == bytes[k..];
    assert [] + bytes[..k] == bytes[..k];
    assert GivesUp(Decode(cp, bytes[..k]).pending, chunks[1..][0]);
  }

  /** A lead byte and a control byte, cut apart: the lead byte is lost, where decoding them together makes a character. */
  lemma LeadIsGivenUp(cp: CodePage, lead: int, control: int)
    requires LengthPreserving(cp) && IsLead(cp, lead) && control < SPACE
    ensures Written(cp, [], [[lead], [control]]) != Decode(cp, [lead, control])
    ensures Decode(cp, [lead, control]) == Decoded([cp.two(lead, control)], [])
  {
    hide Written, LengthPreserving, IsLead, Decode;
    var bytes := [lead, control];
    assert bytes[..1] == [lead] && bytes[1..] == [control] && bytes[2..] == [];
    DecodeShort(cp, [lead]);
    DecodeShort(cp, []);
    DecodePair(cp, bytes);
    UncleanCut(cp, bytes, 1);
    AgreesIffClean(cp, [[lead], [control]]);
  }

  /** A stream decodes the same however it is cut exactly when its trail bytes are printable. */
  lemma EveryCutAgrees(cp: CodePage, bytes: seq<int>)
    requires LengthPreserving(cp)
    ensures PrintableTrails(cp, bytes) <==>
            forall chunks {:trigger Joined(chunks)} ::
              Joined(chunks) == bytes ==> Written(cp, [], chunks) == Decode(cp, bytes)
  {
    hide Decode, LengthPreserving, Written;
    DecodeShort(cp, []);
    if PrintableTrails(cp, bytes) {
      forall chunks {:trigger Joined(chunks)} | Joined(chunks) == bytes
        ensures Written(cp, [], chunks) == Decode(cp, bytes)
      {
        assert [] + Joined(chunks) == bytes;
        PrintableIsClean(cp, [], chunks);
        AgreesIffClean(cp, chunks);
      }
    } else {
      var k :| 0 < k < |bytes| && Decode(cp, bytes[..k]).pending != [] && bytes[k] < SPACE;
      UncleanCut(cp, bytes, k);
      AgreesIffClean(cp, [bytes[..k], bytes[k..]]);
    }
  }
}
