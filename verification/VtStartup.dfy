/** Starting a pseudoconsole session while it may be closed at any moment: the thread that starts it gives up the console
    lock while it waits for the terminal's answer, and close requests come in from three sides. A request that finds no
    client connected ends the host. */
module VtStartup {

  datatype State = Uninitialized | Initialized | Starting | StartupFailed | Running

  /** Where the starting thread is. It holds the console lock in every place but the first two. */
  datatype Place = Idle | Waiting | Creating | Greeting | Connecting

  datatype Result = NotNeeded | NoMemory | Failed | Ok

  /** Who asks for the session to be closed: the signal pipe's thread, the input pipe's, or a broken output pipe. */
  datatype Side = Signal | Input | Output

  datatype Event =
    | Initialize(signal: bool, threadOk: bool) // `_Initialize` up to the signal thread
    | MarkInitialized // the end of `_Initialize`
    | Connect // a client is entered in the process list
    | Leave // the last client is gone from it
    | Start // `StartIfNeeded` is entered, for a client that is connecting
    | Create(input: bool, ok: bool) // the input thread, if there is an input pipe
    | Greet(broken: bool) // the first writes to the terminal
    | Answer // the wait for the terminal is over
    | Finish // the last part of `StartIfNeeded`
    | Close(side: Side) // `SendCloseEvent` by another thread

  datatype Session = Session(
    state: State,
    initializing: bool, // `_Initialize` is under way
    closeEventSent: bool,
    actions: nat, // how often the client processes were told to close
    place: Place,
    signalThread: bool,
    inputThread: bool,
    last: Result, // what `StartIfNeeded` returned last
    listed: bool, // the process list is not empty
    gone: bool // the host has exited
  )

  const Init := Session(Uninitialized, false, false, 0, Idle, false, false, NotNeeded, false, false)

  predicate LockFree(s: Session) {
    s.place == Idle || s.place == Waiting
  }

  /** The start has begun and not come to an end. */
  predicate UnderWay(s: Session) {
    s.place != Idle
  }

  /** `SendCloseEvent`, with `CloseConsoleProcessState`: clients are told to close; without any the host exits. */
  function SendClose(s: Session): Session {
    if s.state == Starting then s.(state := StartupFailed)
    else if s.closeEventSent then s
    else if s.listed then s.(closeEventSent := true, actions := s.actions + 1)
    else s.(closeEventSent := true, gone := true)
  }

  /** Nothing happens any more once the host is gone. Clients come and go by way of the thread that starts the session. */
  predicate Enabled(s: Session, e: Event) {
    !s.gone &&
    match e
    case Initialize(_, _) => s.state == Uninitialized && !s.initializing
    case MarkInitialized => s.initializing
    case Connect => s.place == Idle
    case Leave => s.place == Idle
    case Start => s.place == Idle && s.listed
    case Create(_, _) => s.place == Creating
    case Greet(_) => s.place == Greeting
    case Answer => s.place == Waiting
    case Finish => s.place == Connecting
    case Close(side) => LockFree(s) && (side == Signal ==> s.signalThread) && (side == Input ==> s.inputThread)
  }

  /** A client whose start fails is taken off the list again. */
  function Next(s: Session, e: Event): Session {
    match e
    case Initialize(signal, threadOk) =>
      if signal && !threadOk then s else s.(initializing := true, signalThread := signal)
    case MarkInitialized => s.(initializing := false, state := Initialized)
    case Connect => s.(listed := true)
    case Leave => s.(listed := false)
    case Start =>
      if s.state != Initialized then s.(last := NotNeeded) else s.(state := Starting, place := Creating)
    case Create(input, ok) =>
      if !input then s.(place := Connecting)
      else if !ok then s.(place := Idle, last := NoMemory, listed := false)
      else s.(place := Greeting, inputThread := true)
    case Greet(broken) => (if broken then SendClose(s) else s).(place := Waiting)
    case Answer => s.(place := Connecting)
    case Finish =>
      if s.state != Starting then s.(place := Idle, last := Failed, listed := false)
      else s.(place := Idle, state := Running, last := Ok)
    case Close(_) => SendClose(s)
  }

  /** The interleavings: any events, each possible where it happens. */
  predicate Runs(s: Session, events: seq<Event>)
    decreases |events|
  {
    events == [] || (Enabled(s, events[0]) && Runs(Next(s, events[0]), events[1..]))
  }

  function End(s: Session, events: seq<Event>): Session
    decreases |events|
  {
    if events == [] then s else End(Next(s, events[0]), events[1..])
  }

  predicate IsClose(e: Event) {
    e.Close? || (e.Greet? && e.broken)
  }

  /** Close requests in a run. */
  function Closes(events: seq<Event>): nat {
    if events == [] then 0 else (if IsClose(events[0]) then 1 else 0) + Closes(events[1..])
  }

  /** Close requests that come in while a start is under way. */
  function ClosesUnderWay(s: Session, events: seq<Event>): nat
    decreases |events|
  {
    if events == [] then 0
    else (if IsClose(events[0]) && UnderWay(s) then 1 else 0) + ClosesUnderWay(Next(s, events[0]), events[1..])
  }

  // ---------------------------------------------------------------------------------------
  // What every step keeps
  // ---------------------------------------------------------------------------------------

  /** The start gave up because the input thread could not be made, and nobody asked to close since. */
  predicate Abandoned(s: Session) {
    s.state == Starting && s.place == Idle
  }

  /** `closes` requests so far, `during` of them with the start under way. */
  ghost predicate Inv(s: Session, closes: nat, during: nat) {
    && (s.initializing ==> s.state == Uninitialized)
    && (s.state == Uninitialized || s.state == Initialized ==> s.place == Idle && during == 0 && s.last == NotNeeded)
    && (UnderWay(s) ==> s.state == Starting || s.state == StartupFailed)
    && (UnderWay(s) ==> (s.state == Starting <==> during == 0))
    && (s.state == Running ==> during == 0 && s.place == Idle)
    && (s.state == StartupFailed ==> closes > 0)
    && during <= closes
    && s.actions == (if s.closeEventSent && !s.gone then 1 else 0)
    && (s.gone ==> s.closeEventSent)
    && (UnderWay(s) ==> s.listed)
    && (s.closeEventSent <==> closes > (if s.state == StartupFailed then 1 else 0))
  }

  lemma Kept(s: Session, e: Event, closes: nat, during: nat)
    requires Inv(s, closes, during) && Enabled(s, e)
    ensures Inv(Next(s, e), closes + (if IsClose(e) then 1 else 0),
                during + (if IsClose(e) && UnderWay(s) then 1 else 0))
  {
    hide SendClose, Inv;
    match e
    case Close(_) =>
      SendKept(s, closes, during);
    case Greet(broken) =>
      SendKept(s, closes, during);
      Moved(s, closes, during, Waiting);
      Moved(SendClose(s), closes + 1, during + 1, Waiting);
    case _ =>
      OtherKept(s, e, closes, during);
  }

  lemma SendKept(s: Session, closes: nat, during: nat)
    requires Inv(s, closes, during)
    ensures Inv(SendClose(s), closes + 1, during + if UnderWay(s) then 1 else 0)
    ensures SendClose(s).place == s.place
  {
  }

  lemma Moved(s: Session, closes: nat, during: nat, place: Place)
    requires UnderWay(s) && place != Idle
    ensures Inv(s, closes, during) ==> Inv(s.(place := place), closes, during)
  {
  }

  lemma OtherKept(s: Session, e: Event, closes: nat, during: nat)
    requires Inv(s, closes, during) && Enabled(s, e) && !e.Close? && !e.Greet?
    ensures Inv(Next(s, e), closes, during)
  {
    hide SendClose;
  }

  lemma {:induction false} KeptOverRun(s: Session, events: seq<Event>, closes: nat, during: nat)
    requires Inv(s, closes, during) && Runs(s, events)
    ensures Inv(End(s, events), closes + Closes(events), during + ClosesUnderWay(s, events))
    decreases |events|
  {
    hide Inv, Next, Enabled;
    if events != [] {
      var e := events[0];
      Kept(s, e, closes, during);
      KeptOverRun(Next(s, e), events[1..], closes + (if IsClose(e) then 1 else 0),
                  during + (if IsClose(e) && UnderWay(s) then 1 else 0));
    }
  }

  // ---------------------------------------------------------------------------------------
  // What holds of every run
  // ---------------------------------------------------------------------------------------

  /** A session runs only if nobody asked to close it while it was starting. */
  lemma RunningMeansUndisturbed(events: seq<Event>)
    requires Runs(Init, events) && End(Init, events).state == Running
    ensures ClosesUnderWay(Init, events) == 0
  {
    KeptOverRun(Init, events, 0, 0);
  }

  /** And a start that gets to its end succeeds exactly when nobody did. */
  lemma FinishDecides(events: seq<Event>)
    requires Runs(Init, events) && Enabled(End(Init, events), Finish)
    ensures Next(End(Init, events), Finish).last == Ok <==> ClosesUnderWay(Init, events) == 0
    ensures Next(End(Init, events), Finish).state == Running <==> ClosesUnderWay(Init, events) == 0
    ensures Next(End(Init, events), Finish).last == Failed <==> ClosesUnderWay(Init, events) > 0
  {
    KeptOverRun(Init, events, 0, 0);
  }

  /** A failed start stays failed, whatever happens next. */
  lemma {:induction false} FailedForGood(s: Session, events: seq<Event>)
    requires (s.state == StartupFailed && !s.initializing) && Runs(s, events)
    ensures End(s, events).state == StartupFailed
    decreases |events|
  {
    if events != [] {
      FailedForGood(Next(s, events[0]), events[1..]);
    }
  }

  /** A start that was abandoned never becomes a running session either. */
  lemma {:induction false} AbandonedNeverRuns(s: Session, events: seq<Event>)
    requires Abandoned(s) && !s.initializing && Runs(s, events)
    ensures End(s, events).state == Starting || End(s, events).state == StartupFailed
    ensures End(s, events).place == Idle
    decreases |events|
  {
    if events != [] {
      if Next(s, events[0]).state == StartupFailed {
        FailedAndIdle(Next(s, events[0]), events[1..]);
      } else {
        AbandonedNeverRuns(Next(s, events[0]), events[1..]);
      }
    }
  }

  lemma {:induction false} FailedAndIdle(s: Session, events: seq<Event>)
    requires s.state == StartupFailed && !s.initializing && s.place == Idle && Runs(s, events)
    ensures End(s, events).state == StartupFailed && End(s, events).place == Idle
    decreases |events|
  {
    if events != [] {
      FailedAndIdle(Next(s, events[0]), events[1..]);
    }
  }

  /** A request takes effect at most once: the clients are told to close, or the host exits, and never both. No request is
      lost except the one that makes a start fail. */
  lemma ClosedOnce(events: seq<Event>)
    requires Runs(Init, events)
    ensures var s := End(Init, events);
            && s.actions <= 1 && !(s.actions == 1 && s.gone)
            && (s.actions == 1 || s.gone <==> Closes(events) > if s.state == StartupFailed then 1 else 0)
  {
    KeptOverRun(Init, events, 0, 0);
  }

  /** It takes effect only outside the starting state, and a request in any other state is enough. */
  lemma ActionNeverWhileStarting(events: seq<Event>, e: Event)
    requires Runs(Init, events) && Enabled(End(Init, events), e)
    ensures var s := End(Init, events);
            && (Next(s, e).actions != s.actions || Next(s, e).gone ==> IsClose(e) && s.state != Starting)
            && (IsClose(e) && s.state != Starting ==> Next(s, e).actions == 1 || Next(s, e).gone)
  {
    KeptOverRun(Init, events, 0, 0);
  }

  /** The first request that takes effect finds no client. */
  predicate FirstFindsNobody(s: Session, events: seq<Event>)
    decreases |events|
  {
    events != [] &&
    if IsClose(events[0]) && s.state != Starting then !s.listed else FirstFindsNobody(Next(s, events[0]), events[1..])
  }

  /** The host is gone exactly when the first request to take effect found no client. */
  lemma {:induction false} GoneIff(s: Session, events: seq<Event>)
    requires Runs(s, events) && !s.gone && !s.closeEventSent && (UnderWay(s) ==> s.listed)
    requires (UnderWay(s) ==> s.state == Starting || s.state == StartupFailed) && (s.initializing ==> s.state == Uninitialized)
    ensures End(s, events).gone <==> FirstFindsNobody(s, events)
    decreases |events|
  {
    if events != [] {
      var e := events[0];
      if IsClose(e) && s.state != Starting {
        OnceSent(Next(s, e), events[1..]);
      } else {
        GoneIff(Next(s, e), events[1..]);
      }
    }
  }

  /** Once a request has taken effect no other does. */
  lemma {:induction false} OnceSent(s: Session, events: seq<Event>)
    requires Runs(s, events) && s.closeEventSent
    ensures End(s, events).gone == s.gone
    decreases |events|
  {
    if events != [] {
      OnceSent(Next(s, events[0]), events[1..]);
    }
  }

  /** As long as no client ever connected, any request ends the host, and nothing follows it. */
  lemma NobodyConnectedEndsTheHost(events: seq<Event>, e: Event, more: seq<Event>)
    requires Runs(Init, events + [e] + more) && IsClose(e)
    requires forall i :: 0 <= i < |events| ==> !events[i].Connect?
    ensures End(Init, events + [e]).gone && more == []
  {
    assert events + [e] + more == events + ([e] + more);
    RunPrefix(Init, events, [e] + more);
    NeverListed(Init, events);
    var s := End(Init, events);
    assert ([e] + more)[1..] == more && ([e] + more)[0] == e;
    Follow(s, [e] + more);
    EndConcat(Init, events, [e]);
    assert [e][1..] == [];
    Follow(s, [e]);
    if more != [] {
      Follow(Next(s, e), more);
    }
  }

  lemma {:induction false} NeverListed(s: Session, events: seq<Event>)
    requires Runs(s, events) && forall i :: 0 <= i < |events| ==> !events[i].Connect?
    requires !s.listed && s.place == Idle && s.state != Starting && (s.closeEventSent ==> s.gone)
    ensures var t := End(s, events); !t.listed && t.place == Idle && t.state != Starting && (t.closeEventSent ==> t.gone)
    decreases |events|
  {
    if events != [] {
      assert !events[0].Connect?;
      NeverListed(Next(s, events[0]), events[1..]);
    }
  }

  /** So a session that runs after an early request had a client to tell. */
  lemma RunningHadClients(events: seq<Event>)
    requires Runs(Init, events) && End(Init, events).state == Running && !End(Init, events).gone
    ensures Closes(events) == 0 <==> End(Init, events).actions == 0
    ensures !FirstFindsNobody(Init, events)
  {
    KeptOverRun(Init, events, 0, 0);
    GoneIff(Init, events);
  }

  lemma {:induction false} RunPrefix(s: Session, a: seq<Event>, b: seq<Event>)
    requires Runs(s, a + b)
    ensures Runs(s, a) && Runs(End(s, a), b)
    decreases |a|
  {
    if a == [] {
      assert a + b == b;
    } else {
      assert (a + b)[1..] == a[1..] + b;
      RunPrefix(Next(s, a[0]), a[1..], b);
    }
  }

  lemma {:induction false} EndConcat(s: Session, a: seq<Event>, b: seq<Event>)
    ensures End(s, a + b) == End(End(s, a), b)
    decreases |a|
  {
    if a == [] {
      assert a + b == b;
    } else {
      assert (a + b)[1..] == a[1..] + b;
      EndConcat(Next(s, a[0]), a[1..], b);
    }
  }

  /** With the start still under way they are told exactly by a request that is not the first to disturb it, if they
      have not been told before. */
  lemma ActionUnderWay(events: seq<Event>, e: Event)
    requires Runs(Init, events) && Enabled(End(Init, events), e) && UnderWay(End(Init, events))
    ensures var s := End(Init, events);
            Next(s, e).actions != s.actions <==>
            IsClose(e) && ClosesUnderWay(Init, events) == 1 && Closes(events) == 1
  {
    KeptOverRun(Init, events, 0, 0);
  }

  /** The lock is given up only to wait for the terminal's answer, so before the terminal has been greeted no request can
      disturb a start, whatever the interleaving. */
  lemma {:induction false} UndisturbedUntilGreeted(s: Session, events: seq<Event>)
    requires s.place != Waiting && Runs(s, events) && forall i :: 0 <= i < |events| ==> !events[i].Greet?
    ensures ClosesUnderWay(s, events) == 0 && End(s, events).place != Waiting
    decreases |events|
  {
    hide Next, Enabled, IsClose, UnderWay;
    if events != [] {
      assert !events[0].Greet?;
      QuietStep(s, events[0]);
      UndisturbedUntilGreeted(Next(s, events[0]), events[1..]);
    }
  }

  lemma QuietStep(s: Session, e: Event)
    requires s.place != Waiting && Enabled(s, e) && !e.Greet?
    ensures Next(s, e).place != Waiting && !(IsClose(e) && UnderWay(s))
  {
  }

  /** A session without an input pipe never greets; its start succeeds whenever it gets to its end. */
  lemma StartWithoutInputSucceeds(events: seq<Event>)
    requires Runs(Init, events) && Enabled(End(Init, events), Finish)
    requires forall i :: 0 <= i < |events| ==> !events[i].Greet?
    ensures Next(End(Init, events), Finish).state == Running
  {
    UndisturbedUntilGreeted(Init, events);
    FinishDecides(events);
  }

  /** The greeting finds the output pipe broken and makes the start fail; a request that follows during the wait tells the
      clients to close although the start has not come to its end. */
  lemma SecondRequestActs()
    ensures var events := [Initialize(true, true), MarkInitialized, Connect, Start, Create(true, true), Greet(true)];
            var s := End(Init, events);
            && Runs(Init, events) && Enabled(s, Close(Signal)) && UnderWay(s) && s.actions == 0
            && Next(s, Close(Signal)).actions == 1 && UnderWay(Next(s, Close(Signal)))
  {
    var tail := [Start, Create(true, true), Greet(true)];
    var events := [Initialize(true, true), MarkInitialized, Connect] + tail;
    var s := Ready(tail);
    Follow(s, tail);
    assert tail[1..] == [Create(true, true), Greet(true)];
    Follow(s.(state := Starting, place := Creating), tail[1..]);
    assert tail[1..][1..] == [Greet(true)] && [Greet(true)][1..] == [];
    Follow(s.(state := Starting, place := Greeting, inputThread := true), [Greet(true)]);
  }

  /** A session that is initialized and has its first client. */
  lemma Ready(tail: seq<Event>) returns (s: Session)
    ensures s == Init.(signalThread := true, state := Initialized, listed := true)
    ensures var events := [Initialize(true, true), MarkInitialized, Connect] + tail;
            (Runs(Init, events) <==> Runs(s, tail)) && End(Init, events) == End(s, tail)
  {
    var events := [Initialize(true, true), MarkInitialized, Connect] + tail;
    var s1 := Init.(initializing := true, signalThread := true);
    var s2 := s1.(initializing := false, state := Initialized);
    s := s2.(listed := true);
    Follow(Init, events);
    assert events[1..] == [MarkInitialized, Connect] + tail;
    Follow(s1, events[1..]);
    assert events[1..][1..] == [Connect] + tail;
    Follow(s2, [Connect] + tail);
    assert ([Connect] + tail)[1..] == tail;
  }

  /** A request between a client's connection and the start tells that client to close, yet the session still starts. */
  lemma ClosedBeforeStartStillRuns()
    ensures var events := [Initialize(true, true), MarkInitialized, Connect, Close(Signal), Start, Create(false, true), Finish];
            Runs(Init, events) && End(Init, events).state == Running && End(Init, events).actions == 1
  {
    var tail := [Close(Signal), Start, Create(false, true), Finish];
    assert [Initialize(true, true), MarkInitialized, Connect, Close(Signal), Start, Create(false, true), Finish] ==
           [Initialize(true, true), MarkInitialized, Connect] + tail;
    hide Runs, End, Next, Enabled;
    var s := Ready(tail);
    Follow(s, tail);
    assert tail[1..] == [Start, Create(false, true), Finish];
    Told(s);
    StartQuietly(s.(closeEventSent := true, actions := 1));
  }

  lemma Told(s: Session)
    requires s.state == Initialized && s.place == Idle && s.listed && s.signalThread && !s.gone && !s.closeEventSent
    ensures Enabled(s, Close(Signal)) && Next(s, Close(Signal)) == s.(closeEventSent := true, actions := s.actions + 1)
  {
  }

  lemma StartQuietly(s: Session)
    requires s.state == Initialized && s.place == Idle && s.listed && !s.gone
    ensures var tail := [Start, Create(false, true), Finish];
            Runs(s, tail) && End(s, tail) == s.(state := Running, last := Ok)
  {
    var tail := [Start, Create(false, true), Finish];
    assert tail[1..] == [Create(false, true), Finish] && [Create(false, true), Finish][1..] == [Finish] && [Finish][1..] == [];
    Follow(s, tail);
    Follow(s.(state := Starting, place := Creating), [Create(false, true), Finish]);
    Follow(s.(state := Starting, place := Connecting), [Finish]);
  }

  /** One step of a run. */
  lemma Follow(s: Session, events: seq<Event>)
    requires events != []
    ensures Runs(s, events) == (Enabled(s, events[0]) && Runs(Next(s, events[0]), events[1..]))
    ensures End(s, events) == End(Next(s, events[0]), events[1..])
  {
  }
}
