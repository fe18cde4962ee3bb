/** The pseudoconsole's output: writers nest, and what they write leaves in one piece when the outermost one ends. */
module VtWriter {

  /** How the operating system answered a write. */
  datatype WriteResult = Written | InFlight | BrokenPipe | OtherError

  /** Answers given during a flush: to the wait for an earlier overlapped write, and to the new write. */
  datatype Outcome = Outcome(waitOk: bool, result: WriteResult)

  /** What happens to the writers: one is made, used, handed in, or dropped without having been handed in. */
  datatype Op = Open | Write(bytes: seq<int>) | Backup | Submit(outcome: Outcome) | Die(outcome: Outcome)

  ghost const SAVE: seq<int> := [0x1b, 0x37]
  ghost const RESTORE: seq<int> := [0x1b, 0x38]

  // ---------------------------------------------------------------------------------------
  // Batches
  // ---------------------------------------------------------------------------------------

  ghost function Change(op: Op): int {
    match op
    case Open => 1
    case Submit(_) => -1
    case Die(_) => -1
    case _ => 0
  }

  /** Writers alive after `ops`. */
  ghost function Depth(ops: seq<Op>): int {
    if ops == [] then 0 else Depth(ops[..|ops| - 1]) + Change(ops[|ops| - 1])
  }

  /** What the writers themselves wrote. */
  ghost function Bytes(ops: seq<Op>): seq<int> {
    if ops == [] then []
    else
      var last := ops[|ops| - 1];
      Bytes(ops[..|ops| - 1]) + if last.Write? then last.bytes else []
  }

  ghost predicate Saved(ops: seq<Op>) {
    Backup in ops
  }

  ghost predicate Dead(ops: seq<Op>) {
    exists i :: 0 <= i < |ops| && ops[i].Die?
  }

  ghost function First(ops: seq<Op>): (k: nat)
    ensures k <= |ops| && Backup !in ops[..k] && (k < |ops| ==> ops[k] == Backup)
  {
    if ops == [] then 0
    else
      var k := First(ops[..|ops| - 1]);
      if k < |ops| - 1 then k
      else if ops[|ops| - 1] == Backup then |ops| - 1
      else |ops|
  }

  /** The batch on the wire: at the first request to keep the cursor it is saved, and restored at the very end. */
  ghost function Payload(ops: seq<Op>): seq<int> {
    if !Saved(ops) then Bytes(ops)
    else
      var k := First(ops);
      Bytes(ops[..k]) + SAVE + Rest(ops, k) + RESTORE
  }

  /** What was written after the first `k` operations. */
  ghost function Rest(ops: seq<Op>, k: nat): seq<int>
    requires k <= |ops|
    decreases |ops|
  {
    if k == |ops| then []
    else
      var last := ops[|ops| - 1];
      Rest(ops[..|ops| - 1], k) + if last.Write? then last.bytes else []
  }

  /** A batch goes out when no writer died and one of them wrote something. */
  ghost predicate Sends(ops: seq<Op>) {
    !Dead(ops) && Bytes(ops) != []
  }

  /** The back buffer while a batch is being put together. */
  ghost function Content(ops: seq<Op>): seq<int> {
    if !Saved(ops) then Bytes(ops)
    else
      var k := First(ops);
      Bytes(ops[..k]) + SAVE + Rest(ops, k)
  }

  /** Complete batches, and the one under way. */
  datatype Batches = Batches(done: seq<seq<Op>>, cur: seq<Op>)

  ghost function Parse(ops: seq<Op>): Batches {
    if ops == [] then Batches([], [])
    else
      var b := Parse(ops[..|ops| - 1]);
      var cur := b.cur + [ops[|ops| - 1]];
      if Depth(cur) == 0 then Batches(b.done + [cur], []) else Batches(b.done, cur)
  }

  /** Only a living writer can be used or ended. */
  ghost predicate Legal(ops: seq<Op>) {
    ops == [] ||
    (Legal(ops[..|ops| - 1]) && (ops[|ops| - 1].Open? || Depth(ops[..|ops| - 1]) > 0))
  }

  // ---------------------------------------------------------------------------------------
  // The pipe
  // ---------------------------------------------------------------------------------------

  datatype Call = Call(data: seq<int>, result: WriteResult)

  /** The pipe: whether it is open, whether a write is in flight, the writes so far, and the close requests made. */
  datatype Pipe = Pipe(open: bool, pending: bool, calls: seq<Call>, closes: nat)

  ghost function Ending(op: Op): Outcome {
    match op
    case Submit(o) => o
    case Die(o) => o
    case _ => Outcome(true, Written)
  }

  /** The end of a batch: an earlier write is waited for, then the batch goes out if it should and can. */
  ghost function Deliver(p: Pipe, batch: seq<Op>, o: Outcome): Pipe {
    var p := if p.pending && !o.waitOk then Pipe(false, false, p.calls, p.closes + 1) else p.(pending := false);
    if !Sends(batch) || !p.open then p
    else
      var broken := o.result == BrokenPipe;
      Pipe(!broken, o.result == InFlight, p.calls + [Call(Payload(batch), o.result)], p.closes + if broken then 1 else 0)
  }

  ghost function Delivered(p: Pipe, done: seq<seq<Op>>): Pipe
    decreases |done|
  {
    if done == [] then p
    else
      var last := done[|done| - 1];
      Deliver(Delivered(p, done[..|done| - 1]), last, if last == [] then Outcome(true, Written) else Ending(last[|last| - 1]))
  }

  // ---------------------------------------------------------------------------------------
  // What one more operation does to these
  // ---------------------------------------------------------------------------------------

  lemma Snoc(ops: seq<Op>, op: Op)
    ensures (ops + [op])[..|ops|] == ops && (ops + [op])[|ops|] == op
    ensures Depth(ops + [op]) == Depth(ops) + Change(op)
    ensures Bytes(ops + [op]) == Bytes(ops) + if op.Write? then op.bytes else []
    ensures Saved(ops + [op]) == (Saved(ops) || op == Backup)
    ensures Dead(ops + [op]) == (Dead(ops) || op.Die?)
  {
    hide Saved, Dead;
    assert (ops + [op])[..|ops|] == ops && (ops + [op])[|ops|] == op;
    SnocFlags(ops, op);
  }

  lemma SnocFlags(ops: seq<Op>, op: Op)
    ensures Saved(ops + [op]) == (Saved(ops) || op == Backup)
    ensures Dead(ops + [op]) == (Dead(ops) || op.Die?)
  {
    var more := ops + [op];
    if Dead(ops) {
      var i :| 0 <= i < |ops| && ops[i].Die?;
      assert more[i].Die?;
    }
    if op.Die? {
      assert more[|ops|].Die?;
    }
  }

  lemma FirstSnoc(ops: seq<Op>, op: Op)
    ensures First(ops + [op]) ==
            if Saved(ops) then First(ops) else if op == Backup then |ops| else |ops| + 1
    ensures !Saved(ops) ==> First(ops) == |ops|
    ensures Saved(ops) ==> First(ops) < |ops|
  {
    var more := ops + [op];
    assert more[..|more| - 1] == ops;
    assert ops[..|ops|] == ops;
  }

  lemma ContentSnoc(ops: seq<Op>, op: Op)
    ensures Content(ops + [op]) ==
            Content(ops) + (match op case Write(bytes) => bytes case Backup => if Saved(ops) then [] else SAVE case _ => [])
  {
    hide First, Bytes, Saved, Rest;
    var more := ops + [op];
    Snoc(ops, op);
    FirstSnoc(ops, op);
    if Saved(ops) {
      var k := First(ops);
      RestSnoc(ops, op, k);
      assert more[..k] == ops[..k];
      assert Bytes(ops[..k]) + SAVE + (Rest(ops, k) + if op.Write? then op.bytes else [])
          == Bytes(ops[..k]) + SAVE + Rest(ops, k) + if op.Write? then op.bytes else [];
    } else if op == Backup {
      RestSnoc(ops, op, |ops|);
      assert more[..|ops|] == ops;
    }
  }

  lemma RestSnoc(ops: seq<Op>, op: Op, k: nat)
    requires k <= |ops|
    ensures Rest(ops, |ops|) == []
    ensures Rest(ops + [op], k) == Rest(ops, k) + if op.Write? then op.bytes else []
  {
    var more := ops + [op];
    assert more[..|more| - 1] == ops;
  }

  lemma ParseSnoc(ops: seq<Op>, op: Op)
    ensures var b := Parse(ops);
            var cur := b.cur + [op];
            Parse(ops + [op]) == if Depth(cur) == 0 then Batches(b.done + [cur], []) else Batches(b.done, cur)
    ensures Legal(ops + [op]) <==> Legal(ops) && (op.Open? || Depth(ops) > 0)
  {
    assert (ops + [op])[..|ops|] == ops;
  }

  lemma DeliveredSnoc(p: Pipe, done: seq<seq<Op>>, batch: seq<Op>, op: Op)
    ensures Delivered(p, done + [batch + [op]]) == Deliver(Delivered(p, done), batch + [op], Ending(op))
  {
    assert (done + [batch + [op]])[..|done|] == done;
  }

  /** A finished batch is longer than the automatic sequences exactly when a writer wrote something. */
  lemma SizeTells(ops: seq<Op>)
    ensures Payload(ops) == Content(ops) + if Saved(ops) then RESTORE else []
    ensures |Payload(ops)| <= (if Saved(ops) then 4 else 0) <==> Bytes(ops) == []
  {
    if Saved(ops) {
      var k := First(ops);
      BytesSplit(ops, k);
    } else {
      assert Bytes(ops) + [] == Bytes(ops);
    }
  }

  lemma {:induction false} BytesSplit(ops: seq<Op>, k: nat)
    requires k <= |ops|
    ensures Bytes(ops[..k]) + Rest(ops, k) == Bytes(ops)
    decreases |ops|
  {
    if k == |ops| {
      assert ops[..k] == ops;
    } else {
      var init := ops[..|ops| - 1];
      assert init[..k] == ops[..k];
      BytesSplit(init, k);
    }
  }

  // ---------------------------------------------------------------------------------------
  // The implementation
  // ---------------------------------------------------------------------------------------

  /** `VtIo`: the fields the writers share. `Ops` is everything that happened so far, `Live` the writers alive, and
      `Start` the pipe as it was handed over. */
  class VtIo {
    var corked: int
    var front: seq<int>
    var back: seq<int>
    var overlappedPending: bool
    var restoreCursor: bool
    var tainted: bool
    var outputOpen: bool
    var calls: seq<Call>
    var closes: nat
    ghost var Ops: seq<Op>
    ghost var Live: set<Writer>
    ghost const Start: bool

    ghost function Wire(): Pipe
      reads this
    {
      Pipe(outputOpen, overlappedPending, calls, closes)
    }

    /** The buffer holds the unfinished batch, and the pipe has seen the finished ones. */
    ghost predicate Valid()
      reads this
    {
      && Legal(Ops) && corked == |Live| == Depth(Parse(Ops).cur)
      && back == Content(Parse(Ops).cur)
      && restoreCursor == Saved(Parse(Ops).cur)
      && tainted == Dead(Parse(Ops).cur)
      && Wire() == Delivered(Pipe(Start, false, [], 0), Parse(Ops).done)
      && (overlappedPending ==> calls != [] && calls[|calls| - 1] == Call(front, InFlight))
    }

    constructor (open: bool)
      ensures Valid() && Ops == [] && Live == {} && Start == open
    {
      corked, front, back := 0, [], [];
      overlappedPending, restoreCursor, tainted := false, false, false;
      outputOpen, calls, closes := open, [], 0;
      Ops, Live, Start := [], {}, open;
    }

    /** `_flushNow`. */
    method FlushNow(o: Outcome, ghost batch: seq<Op>)
      requires back == Content(batch) && restoreCursor == Saved(batch) && tainted == Dead(batch)
      requires overlappedPending ==> calls != [] && calls[|calls| - 1] == Call(front, InFlight)
      modifies this
      ensures back == [] && !restoreCursor && !tainted && corked == old(corked)
      ensures Ops == old(Ops) && Live == old(Live)
      ensures Wire() == Deliver(old(Wire()), batch, o)
      ensures overlappedPending ==> calls != [] && calls[|calls| - 1] == Call(front, InFlight)
    {
      hide Content, Saved, Dead, Bytes, Payload, Deliver;
      front, overlappedPending, outputOpen, calls, closes :=
        Flush(front, back, restoreCursor, tainted, overlappedPending, outputOpen, calls, closes, o, batch);
      back, restoreCursor, tainted := [], false, false;
    }

    /** `_uncork`: one writer less. */
    method Uncork(ghost op: Op, o: Outcome)
      requires op == Submit(o) || op == Die(o)
      requires Legal(Ops) && corked == Depth(Parse(Ops).cur) == |Live| + 1
      requires back == Content(Parse(Ops).cur)
      requires restoreCursor == Saved(Parse(Ops).cur)
      requires tainted == (Dead(Parse(Ops).cur) || op.Die?)
      requires Wire() == Delivered(Pipe(Start, false, [], 0), Parse(Ops).done)
      requires overlappedPending ==> calls != [] && calls[|calls| - 1] == Call(front, InFlight)
      modifies this
      ensures Valid() && Ops == old(Ops) + [op] && Live == old(Live)
      ensures old(corked) > 1 ==> Wire() == old(Wire())
    {
      hide Content, Saved, Dead, Bytes, Depth, Parse, Deliver, Delivered, Legal;
      ghost var b := Parse(Ops);
      ghost var batch := b.cur + [op];
      Snoc(b.cur, op);
      ContentSnoc(b.cur, op);
      ParseSnoc(Ops, op);
      DepthOfCurrent(Ops);
      DeliveredSnoc(Pipe(Start, false, [], 0), b.done, b.cur, op);
      ghost var before := Wire();
      corked := corked - 1;
      assert Wire() == before;
      if corked <= 0 {
        FlushNow(o, batch);
        Nothing();
      }
      Ops := Ops + [op];
    }
  }

  /** The steps of `_flushNow`, on the values of the fields. The back buffer and both flags are cleared by the caller. */
  method Flush(front0: seq<int>, back0: seq<int>, restoreCursor: bool, tainted: bool, pending0: bool, open0: bool,
               calls0: seq<Call>, closes0: nat, o: Outcome, ghost batch: seq<Op>)
    returns (front: seq<int>, pending: bool, open: bool, calls: seq<Call>, closes: nat)
    requires back0 == Content(batch) && restoreCursor == Saved(batch) && tainted == Dead(batch)
    requires pending0 ==> calls0 != [] && calls0[|calls0| - 1] == Call(front0, InFlight)
    ensures Pipe(open, pending, calls, closes) == Deliver(Pipe(open0, pending0, calls0, closes0), batch, o)
    ensures pending ==> calls != [] && calls[|calls| - 1] == Call(front, InFlight)
    ensures var failed := pending0 && !o.waitOk; // the earlier write came to nothing
            var sent := open0 && !failed && Bytes(batch) != [] && forall i :: 0 <= i < |batch| ==> !batch[i].Die?;
            && calls == calls0 + (if sent then [Call(Payload(batch), o.result)] else [])
            && (pending <==> sent && o.result == InFlight)
            && (open <==> open0 && !failed && !(sent && o.result == BrokenPipe))
            && closes == closes0 + (if failed then 1 else 0) + (if sent && o.result == BrokenPipe then 1 else 0)
  {
    assert Dead(batch) <==> !forall i :: 0 <= i < |batch| ==> !batch[i].Die?;
    hide Content, Saved, Dead, Bytes, Payload;
    SizeTells(batch);
    front, pending, open, calls, closes := front0, pending0, open0, calls0, closes0;
    var back, minSize := back0, 0;
    if restoreCursor {
      minSize := 4;
      back := back + [0x1b, 0x38];
    }
    assert back == Payload(batch);
    if pending {
      pending := false;
      if !o.waitOk {
        open := false;
        closes := closes + 1;
      }
    }
    // The buffer of a write in flight is not touched.
    assert !pending;
    front := back;
    if tainted {
      return;
    }
    if |front| <= minSize {
      return;
    }
    if !open {
      return;
    }
    calls := calls + [Call(front, o.result)];
    match o.result
    case BrokenPipe =>
      open := false;
      closes := closes + 1;
    case InFlight =>
      pending := true;
    case _ =>
  }

  lemma Nothing()
    ensures Depth([]) == 0 && Content([]) == [] && !Saved([]) && !Dead([])
  {
  }

  /** `VtIo::Writer`: a handle on the shared buffer, empty once handed in. */
  class Writer {
    var io: VtIo?

    ghost predicate Alive()
      reads this, io
    {
      io != null && this in io.Live && io.Valid()
    }

    constructor (shared: VtIo)
      requires shared.Valid()
      modifies shared
      ensures io == shared && Alive() && fresh(this)
      ensures shared.Ops == old(shared.Ops) + [Open] && shared.Live == old(shared.Live) + {this}
      ensures shared.Wire() == old(shared.Wire()) && shared.front == old(shared.front)
    {
      hide Content, Saved, Dead, Bytes, Depth, Parse, Deliver, Delivered, Legal;
      io := shared;
      new;
      DepthOfCurrent(shared.Ops);
      ghost var b := Parse(shared.Ops);
      Snoc(b.cur, Open);
      ContentSnoc(b.cur, Open);
      ParseSnoc(shared.Ops, Open);
      shared.corked := shared.corked + 1;
      shared.Ops := shared.Ops + [Open];
      shared.Live := shared.Live + {this};
    }

    method WriteBytes(bytes: seq<int>)
      requires Alive()
      modifies io
      ensures Alive() && io.Ops == old(io.Ops) + [Write(bytes)] && io.Live == old(io.Live)
      ensures io.Wire() == old(io.Wire()) && io.front == old(io.front)
    {
      hide Content, Saved, Dead, Bytes, Depth, Parse, Deliver, Delivered, Legal;
      DepthOfCurrent(io.Ops);
      ghost var b := Parse(io.Ops);
      Snoc(b.cur, Write(bytes));
      ContentSnoc(b.cur, Write(bytes));
      ParseSnoc(io.Ops, Write(bytes));
      io.back := io.back + bytes;
      io.Ops := io.Ops + [Write(bytes)];
    }

    method BackupCursor()
      requires Alive()
      modifies io
      ensures Alive() && io.Ops == old(io.Ops) + [Backup] && io.Live == old(io.Live)
      ensures io.Wire() == old(io.Wire()) && io.front == old(io.front)
    {
      hide Content, Saved, Dead, Bytes, Depth, Parse, Deliver, Delivered, Legal;
      DepthOfCurrent(io.Ops);
      ghost var b := Parse(io.Ops);
      Snoc(b.cur, Backup);
      ContentSnoc(b.cur, Backup);
      ParseSnoc(io.Ops, Backup);
      if !io.restoreCursor {
        io.restoreCursor := true;
        io.back := io.back + [0x1b, 0x37];
      }
      io.Ops := io.Ops + [Backup];
    }

    /** Handing in: the writer is empty afterwards. */
    method SubmitBatch(o: Outcome)
      requires Alive()
      modifies this, io
      ensures io == null && old(io).Valid()
      ensures old(io).Ops == old(io.Ops) + [Submit(o)] && old(io).Live == old(io.Live) - {this}
      ensures old(io.corked) > 1 ==> old(io).Wire() == old(io.Wire())
    {
      hide Content, Saved, Dead, Bytes, Depth, Parse, Deliver, Delivered, Legal;
      var shared := io;
      io := null;
      shared.Live := shared.Live - {this};
      shared.Uncork(Submit(o), o);
    }

    /** The destructor: a writer that was not handed in spoils its batch. */
    method Destroy(o: Outcome)
      requires io == null || Alive()
      modifies this, io
      ensures old(io) != null ==> old(io).Valid()
      ensures old(io) != null ==> old(io).Ops == old(io.Ops) + [Die(o)] && old(io).Live == old(io.Live) - {this}
      ensures old(io) != null && old(io.corked) > 1 ==> old(io).Wire() == old(io.Wire())
    {
      hide Content, Saved, Dead, Bytes, Depth, Parse, Deliver, Delivered, Legal;
      if io != null {
        io.tainted := true;
        io.Live := io.Live - {this};
        io.Uncork(Die(o), o);
      }
    }
  }

  // ---------------------------------------------------------------------------------------
  // Runs
  // ---------------------------------------------------------------------------------------

  /** Finished batches are balanced, so the writers alive are those of the unfinished one. */
  lemma {:induction false} DepthOfCurrent(ops: seq<Op>)
    requires Legal(ops)
    ensures Depth(Parse(ops).cur) == Depth(ops) >= 0
    ensures Depth(ops) == 0 <==> Parse(ops).cur == []
    decreases |ops|
  {
    hide Depth, Parse, Legal;
    if ops == [] {
      EmptyRun();
    } else {
      var init, op := ops[..|ops| - 1], ops[|ops| - 1];
      assert ops == init + [op];
      ParseSnoc(init, op);
      DepthOfCurrent(init);
      Snoc(init, op);
      Snoc(Parse(init).cur, op);
      EmptyRun();
    }
  }

  lemma EmptyRun()
    ensures Depth([]) == 0 && Parse([]) == Batches([], []) && Legal([])
  {
  }

  ghost function Flat(done: seq<seq<Op>>): seq<Op> {
    if done == [] then [] else Flat(done[..|done| - 1]) + done[|done| - 1]
  }

  /** From the first writer to the end of the outermost one, with a writer alive all the time in between. */
  ghost predicate IsBatch(b: seq<Op>) {
    && b != [] && Depth(b) == 0
    && forall k {:trigger b[..k]} :: 0 < k < |b| ==> Depth(b[..k]) > 0
  }

  ghost predicate InBatches(ops: seq<Op>, b: Batches) {
    && Flat(b.done) + b.cur == ops
    && (forall i :: 0 <= i < |b.done| ==> IsBatch(b.done[i]))
    && Ongoing(b.cur)
  }

  ghost predicate Ongoing(cur: seq<Op>) {
    forall k {:trigger cur[..k]} :: 0 < k <= |cur| ==> Depth(cur[..k]) > 0
  }

  /** A run falls into batches: each ends where the outermost writer does, and together they are the run. */
  lemma {:induction false} RunsAreBatches(ops: seq<Op>)
    requires Legal(ops)
    ensures InBatches(ops, Parse(ops))
    decreases |ops|
  {
    hide Depth, Parse, Legal, IsBatch, Ongoing, InBatches;
    if ops == [] {
      NoBatches();
    } else {
      var init, op := ops[..|ops| - 1], ops[|ops| - 1];
      assert ops == init + [op];
      ParseSnoc(init, op);
      RunsAreBatches(init);
      DepthOfCurrent(ops);
      OneMore(init, Parse(init), op);
      EmptyRun();
    }
  }

  lemma NoBatches()
    ensures InBatches([], Parse([]))
  {
  }

  lemma OneMore(ops: seq<Op>, b: Batches, op: Op)
    requires InBatches(ops, b)
    ensures var cur := b.cur + [op];
            && (Depth(cur) == 0 ==> InBatches(ops + [op], Batches(b.done + [cur], [])))
            && (Depth(cur) > 0 ==> InBatches(ops + [op], Batches(b.done, cur)))
  {
    hide Depth, IsBatch, Ongoing;
    var cur := b.cur + [op];
    AliveThroughout(b.cur, op);
    var more := b.done + [cur];
    assert more[..|more| - 1] == b.done;
    assert Flat(b.done) + cur == ops + [op];
  }

  lemma AliveThroughout(cur: seq<Op>, op: Op)
    requires Ongoing(cur)
    ensures (Depth(cur + [op]) == 0 ==> IsBatch(cur + [op])) && (Depth(cur + [op]) > 0 ==> Ongoing(cur + [op]))
    ensures Ongoing([])
  {
    hide Depth;
    var more := cur + [op];
    forall k {:trigger more[..k]} | 0 < k < |more|
      ensures Depth(more[..k]) > 0
    {
      assert more[..k] == cur[..k];
    }
    assert more[..|more|] == more;
  }

  /** Bytes leave only when the outermost writer ends. */
  lemma OnlyTheOutermostSends(p: Pipe, ops: seq<Op>, op: Op)
    requires Legal(ops + [op])
    requires Delivered(p, Parse(ops + [op]).done) != Delivered(p, Parse(ops).done)
    ensures Depth(ops + [op]) == 0 && Depth(ops) == 1 && (op.Submit? || op.Die?)
  {
    hide Depth, Parse, Legal, Delivered;
    ParseSnoc(ops, op);
    Snoc(ops, op);
    Snoc(Parse(ops).cur, op);
    DepthOfCurrent(ops);
    DepthOfCurrent(ops + [op]);
  }

  /** The automatic sequences: one save at the first request, one restore at the end, around what was written. */
  lemma SavedAndRestoredOnce(ops: seq<Op>)
    requires Saved(ops)
    ensures var k := First(ops);
            && k < |ops| && ops[k] == Backup && Backup !in ops[..k]
            && Payload(ops) == Bytes(ops[..k]) + [0x1b, 0x37] + Rest(ops, k) + [0x1b, 0x38]
            && Bytes(ops[..k]) + Rest(ops, k) == Bytes(ops)
  {
    assert ops[..|ops|] == ops;
    BytesSplit(ops, First(ops));
  }

  /** What each batch that goes out consists of. */
  ghost function Payloads(done: seq<seq<Op>>): seq<seq<int>> {
    if done == [] then []
    else
      var last := done[|done| - 1];
      Payloads(done[..|done| - 1]) + if Sends(last) then [Payload(last)] else []
  }

  /** Writes reach the pipe in the order of their batches and none is skipped while the pipe is open; once it is
      closed there are no more, and closing is asked for once. */
  lemma {:induction false} CallsFollowBatches(start: bool, done: seq<seq<Op>>)
    ensures var p := Delivered(Pipe(start, false, [], 0), done);
            var all := Payloads(done);
            && |p.calls| <= |all| && (p.open ==> |p.calls| == |all|)
            && (forall i :: 0 <= i < |p.calls| ==> p.calls[i].data == all[i])
            && (forall i :: 0 <= i < |p.calls| && p.calls[i].result == BrokenPipe ==> i == |p.calls| - 1 && !p.open)
            && p.closes == (if start && !p.open then 1 else 0)
            && (p.pending ==> p.open) && (p.open ==> start)
    decreases |done|
  {
    hide Sends, Payload;
    if done != [] {
      CallsFollowBatches(start, done[..|done| - 1]);
    }
  }

  /** After any batches a write is in flight exactly when the last batch made a call and the answer to it was that it is. */
  lemma InFlightIff(start: bool, done: seq<seq<Op>>)
    ensures var p := Delivered(Pipe(start, false, [], 0), done);
            p.pending <==>
            && done != []
            && |p.calls| > |Delivered(Pipe(start, false, [], 0), done[..|done| - 1]).calls|
            && p.calls[|p.calls| - 1].result == InFlight
  {
    hide Sends, Payload;
  }

  /** The answer with which a batch ends. */
  ghost function Answer(batch: seq<Op>): Outcome
    requires batch != [] && (batch[|batch| - 1].Submit? || batch[|batch| - 1].Die?)
  {
    batch[|batch| - 1].outcome
  }

  /** A wait that fails closes the pipe and asks once for the end, and the batch that waited is not sent; one that succeeds
      changes nothing about that batch. */
  lemma WaitDecides(start: bool, done: seq<seq<Op>>)
    requires done != [] && done[|done| - 1] != []
    requires var last := done[|done| - 1]; last[|last| - 1].Submit? || last[|last| - 1].Die?
    requires Delivered(Pipe(start, false, [], 0), done[..|done| - 1]).pending
    ensures var before := Delivered(Pipe(start, false, [], 0), done[..|done| - 1]);
            var p := Delivered(Pipe(start, false, [], 0), done);
            var last := done[|done| - 1];
            && (!Answer(last).waitOk ==> p.calls == before.calls && !p.open && !p.pending && p.closes == before.closes + 1 == 1)
            && (Answer(last).waitOk && Sends(last) ==> p.calls == before.calls + [Call(Payload(last), Answer(last).result)])
  {
    hide Sends, Payload;
    CallsFollowBatches(start, done[..|done| - 1]);
  }

  /** A closed pipe sees nothing more. */
  lemma {:induction false} ClosedStaysSilent(p: Pipe, done: seq<seq<Op>>)
    requires !p.open && !p.pending
    ensures Delivered(p, done) == p
    decreases |done|
  {
    hide Sends, Payload;
    if done != [] {
      ClosedStaysSilent(p, done[..|done| - 1]);
    }
  }
}
