/** Command history: a bounded list of commands and the index of the one that was shown last. */
module CommandHistory {
  import opened Numbers

  /** `reset` is set when the next request for an older command starts at the command shown last. */
  datatype History = History(commands: seq<string>, last: int, reset: bool, max: nat)

  /** What every operation keeps: the bound, the range of `last`, and that nothing was shown last in a list that has
      commands only if there is room for one more. */
  ghost predicate Valid(h: History) {
    && |h.commands| <= h.max
    && -1 <= h.last <= Max(0, |h.commands| - 1)
    && (h.last == -1 && h.commands != [] ==> |h.commands| < h.max)
    && [] !in h.commands
  }

  ghost predicate Distinct(s: seq<string>) {
    forall i, j {:trigger s[i], s[j]} :: 0 <= i < j < |s| ==> s[i] != s[j]
  }

  // ---------------------------------------------------------------------------------------
  // The cyclic search
  // ---------------------------------------------------------------------------------------

  /** `_Prev`. */
  function Prev(at: int, n: int): int {
    (if at <= 0 then n else at) - 1
  }

  ghost predicate StartsWith(s: string, prefix: string) {
    |prefix| <= |s| && s[..|prefix|] == prefix
  }

  ghost predicate Matches(stored: string, given: string, exact: bool) {
    if exact then stored == given else StartsWith(stored, given)
  }

  /** `k` steps back from `first` in a ring of `n`. */
  ghost function Back(first: int, k: int, n: int): int {
    if k <= first then first - k else first - k + n
  }

  /** Where a search that starts at `first` ends up: at the first match going back, if there is one. */
  ghost predicate FoundFrom(commands: seq<string>, given: string, exact: bool, first: int, at: int)
    requires 0 <= first < |commands|
  {
    exists k {:trigger Back(first, k, |commands|)} ::
      && 0 <= k < |commands| && at == Back(first, k, |commands|)
      && Matches(commands[at], given, exact)
      && forall j {:trigger Back(first, j, |commands|)} ::
           0 <= j < k ==> !Matches(commands[Back(first, j, |commands|)], given, exact)
  }

  /** The loop of `FindMatchingCommand`; an index out of range ends it without a match. */
  method Search(commands: seq<string>, given: string, exact: bool, first: int) returns (found: bool, at: int)
    ensures !(0 <= first < |commands|) ==> !found && at == first
    ensures 0 <= first < |commands| && found ==> FoundFrom(commands, given, exact, first, at) && 0 <= at < |commands|
    ensures 0 <= first < |commands| && !found ==>
              at == first && forall i :: 0 <= i < |commands| ==> !Matches(commands[i], given, exact)
  {
    at := first;
    var i := 0;
    while i < |commands|
      invariant 0 <= i <= |commands|
      invariant i == 0 ==> at == first
      invariant i > 0 ==> 0 <= first < |commands| && at == (if i < |commands| then Back(first, i, |commands|) else first)
      invariant forall j {:trigger Back(first, j, |commands|)} ::
                  0 <= j < i ==> 0 <= Back(first, j, |commands|) < |commands| &&
                                 !Matches(commands[Back(first, j, |commands|)], given, exact)
    {
      if at < 0 || at >= |commands| {
        return false, at; // `at` throws, and the exception is caught
      }
      var stored := commands[at];
      assert at == Back(first, i, |commands|);
      if (!exact && |given| <= |stored|) || |given| == |stored| {
        if stored[..|given|] == given {
          return true, at;
        }
      }
      at := Prev(at, |commands|);
      i := i + 1;
    }
    if 0 <= first < |commands| {
      forall i | 0 <= i < |commands|
        ensures !Matches(commands[i], given, exact)
      {
        var k := if i <= first then first - i else first - i + |commands|;
        assert Back(first, k, |commands|) == i;
      }
    }
    return false, at;
  }

  /** A search from a place in the list finds a match exactly when there is one. */
  lemma SearchIsComplete(commands: seq<string>, given: string, exact: bool, first: int)
    requires 0 <= first < |commands|
    ensures (exists at :: FoundFrom(commands, given, exact, first, at)) <==>
            (exists i :: 0 <= i < |commands| && Matches(commands[i], given, exact))
  {
    if i :| 0 <= i < |commands| && Matches(commands[i], given, exact) {
      var k := if i <= first then first - i else first - i + |commands|;
      assert Back(first, k, |commands|) == i;
      Nearest(commands, given, exact, first, k);
    }
  }

  lemma {:induction false} Nearest(commands: seq<string>, given: string, exact: bool, first: int, k: nat)
    requires 0 <= first < |commands| && k < |commands|
    requires Matches(commands[Back(first, k, |commands|)], given, exact)
    ensures exists at :: FoundFrom(commands, given, exact, first, at)
  {
    var n := |commands|;
    if j :| 0 <= j < k && Matches(commands[Back(first, j, n)], given, exact) {
      Nearest(commands, given, exact, first, j);
    } else {
      assert FoundFrom(commands, given, exact, first, Back(first, k, n));
    }
  }

  /** The first match going back is one place only. */
  lemma FoundOnce(commands: seq<string>, given: string, exact: bool, first: int, a: int, b: int)
    requires 0 <= first < |commands|
    requires FoundFrom(commands, given, exact, first, a) && FoundFrom(commands, given, exact, first, b)
    ensures a == b
  {
  }

  /** The place a search finds, or -1. */
  ghost function Hit(commands: seq<string>, given: string, exact: bool, first: int): (at: int)
    ensures -1 <= at < |commands|
    ensures at >= 0 ==> Matches(commands[at], given, exact)
  {
    if 0 <= first < |commands| && exists at :: FoundFrom(commands, given, exact, first, at) then
      var at :| FoundFrom(commands, given, exact, first, at);
      at
    else -1
  }

  lemma HitFound(commands: seq<string>, given: string, exact: bool, first: int, found: bool, at: int)
    requires 0 <= first < |commands| && found ==> FoundFrom(commands, given, exact, first, at)
    requires 0 <= first < |commands| && !found ==> forall i :: 0 <= i < |commands| ==> !Matches(commands[i], given, exact)
    requires !(0 <= first < |commands|) ==> !found
    ensures Hit(commands, given, exact, first) == if found then at else -1
  {
    if 0 <= first < |commands| {
      if found {
        FoundOnce(commands, given, exact, first, at, Hit(commands, given, exact, first));
      } else {
        SearchIsComplete(commands, given, exact, first);
      }
    }
  }

  lemma HitIffPresent(commands: seq<string>, given: string, first: int)
    requires 0 <= first < |commands|
    ensures Hit(commands, given, true, first) >= 0 <==> given in commands
  {
    SearchIsComplete(commands, given, true, first);
  }

  // ---------------------------------------------------------------------------------------
  // Operations on values
  // ---------------------------------------------------------------------------------------

  ghost function Without(s: seq<string>, i: int): seq<string>
    requires 0 <= i < |s|
  {
    s[..i] + s[i + 1..]
  }

  ghost function Removed(h: History, i: int): History {
    if i < 0 || i >= |h.commands| then h
    else h.(commands := Without(h.commands, i),
            last := if h.last == i then -1 else if h.last > i then h.last - 1 else h.last)
  }

  ghost function ShownNth(h: History, i: int): History {
    if h.commands == [] then h.(last := 0)
    else h.(last := if i < 0 then 0 else if i >= |h.commands| then |h.commands| - 1 else i)
  }

  ghost function Retrieved(h: History, previous: bool): History {
    if previous && h.reset then ShownNth(h.(reset := false), h.last)
    else ShownNth(h, if previous then h.last - 1 else h.last + 1)
  }

  ghost function Swapped(h: History, a: int, b: int): History {
    if 0 <= a < |h.commands| && 0 <= b < |h.commands|
    then h.(commands := h.commands[a := h.commands[b]][b := h.commands[a]])
    else h
  }

  ghost function Resized(h: History, max: nat): History {
    if h.max == max then h
    else
      var commands := if |h.commands| <= max then h.commands else h.commands[..max];
      History(commands, |commands| - 1, true, max)
  }

  ghost function Emptied(h: History): History {
    History([], -1, true, h.max)
  }

  /** Searching uses up the reset flag, unless one is just looking. */
  ghost function Searched(h: History, looking: bool): History {
    if h.commands != [] && !looking then h.(reset := false) else h
  }

  /** Where a search begins. */
  ghost function Begin(h: History, start: int, looking: bool): int {
    if !looking && h.reset then start else if start <= 0 then |h.commands| - 1 else start - 1
  }

  /** Whether `Add` leaves the list alone: no room at all, nothing to add, or a repetition of the newest command. */
  ghost predicate NothingToAdd(h: History, command: string) {
    h.max == 0 || command == [] || (h.commands != [] && h.commands[|h.commands| - 1] == command)
  }

  /** The list before the new command goes in: without the old copy that is found, and without the oldest command if
      there is no room. */
  ghost function MadeRoom(h: History, command: string, suppress: bool): History {
    var hit := if suppress then Hit(h.commands, command, true, Begin(h, h.last, false)) else -1;
    var h := Removed(h, hit);
    if h.commands != [] && |h.commands| == h.max then h.(commands := h.commands[1..], last := h.last - 1) else h
  }

  ghost function Added(h: History, command: string, suppress: bool): History
    requires Valid(h)
  {
    if h.max == 0 || command == [] then h
    else if NothingToAdd(h, command) then h.(reset := true)
    else
      RoomIsMade(h, command, suppress);
      var room := MadeRoom(h, command, suppress);
      var commands := room.commands + [command];
      History(commands, if room.last == -1 || commands[room.last] != command then |commands| - 1 else room.last, true, h.max)
  }

  lemma RemovedIsValid(h: History, i: int)
    requires Valid(h)
    ensures Valid(Removed(h, i)) && Removed(h, i).max == h.max
    ensures 0 <= i < |h.commands| ==> |Removed(h, i).commands| < h.max
  {
    if 0 <= i < |h.commands| {
      var w := Without(h.commands, i);
      assert forall k :: 0 <= k < |w| ==> w[k] == h.commands[if k < i then k else k + 1];
    }
  }

  lemma RoomIsMade(h: History, command: string, suppress: bool)
    requires Valid(h) && h.max > 0
    ensures var room := MadeRoom(h, command, suppress);
            |room.commands| < h.max && -1 <= room.last <= |room.commands| && [] !in room.commands && room.max == h.max
  {
    var hit := if suppress then Hit(h.commands, command, true, Begin(h, h.last, false)) else -1;
    RemovedIsValid(h, hit);
  }

  // ---------------------------------------------------------------------------------------
  // The class
  // ---------------------------------------------------------------------------------------

  class CommandList {
    var commands: seq<string>
    var lastDisplayed: int
    var reset: bool
    var maxCommands: nat

    ghost function Value(): History
      reads this
    {
      History(commands, lastDisplayed, reset, maxCommands)
    }

    /** A new history, as `s_Allocate` makes it. */
    constructor (max: nat)
      ensures Value() == History([], -1, false, max) && Valid(Value())
    {
      commands, lastDisplayed, reset, maxCommands := [], -1, false, max;
    }

    method FindMatchingCommand(given: string, start: int, exact: bool, looking: bool) returns (found: bool, at: int)
      modifies this`reset
      ensures Value() == old(Searched(Value(), looking))
      ensures commands == [] ==> !found && at == start
      ensures commands != [] && given == [] ==> found && at == old(Begin(Value(), start, looking))
      ensures commands != [] && given != [] ==>
                Hit(commands, given, exact, old(Begin(Value(), start, looking))) == if found then at else -1
    {
      at := start;
      if |commands| == 0 {
        return false, at;
      }
      if !looking && reset {
        reset := false;
      } else {
        at := Prev(at, |commands|);
      }
      if given == [] {
        return true, at;
      }
      ghost var first := at;
      found, at := Search(commands, given, exact, at);
      HitFound(commands, given, exact, first, found, at);
    }

    method Remove(i: int) returns (s: string)
      requires Valid(Value())
      modifies this
      ensures Value() == Removed(old(Value()), i) && Valid(Value())
      ensures 0 <= i < |old(commands)| ==>
                && |commands| == |old(commands)| - 1
                && forall k :: 0 <= k < |commands| ==> commands[k] == old(commands)[if k < i then k else k + 1]
      ensures s == if 0 <= i < |old(commands)| then old(commands)[i] else []
    {
      RemovedIsValid(Value(), i);
      if i < 0 || i >= |commands| {
        return [];
      }
      s := commands[i];
      commands := commands[..i] + commands[i + 1..];
      if lastDisplayed == i {
        lastDisplayed := -1;
      } else if lastDisplayed > i {
        lastDisplayed := (if lastDisplayed <= 0 then maxCommands else lastDisplayed) - 1;
      }
    }

    /** False when there is no room for any command. */
    method Add(command: string, suppress: bool) returns (ok: bool)
      requires Valid(Value())
      modifies this
      ensures ok <==> maxCommands > 0
      ensures Value() == Added(old(Value()), command, suppress) && Valid(Value())
    {
      hide Hit, Valid, Added, MadeRoom, Removed, Begin, Searched;
      AddedIsValid(Value(), command, suppress);
      AddedOf(Value(), command, suppress);
      ghost var h := Value();
      if maxCommands == 0 {
        return false;
      }
      if command == [] {
        return true;
      }
      if |commands| == 0 || commands[|commands| - 1] != command {
        var reuse := [];
        ghost var hit := -1;
        if suppress {
          var found, index := FindMatchingCommand(command, lastDisplayed, true, false);
          NoneInEmpty(h.commands, command, Begin(h, h.last, false));
          SearchedIsValid(h, false);
          if found {
            reuse := Remove(index);
            hit := index;
          }
        }
        RoomOf(h, command, suppress, hit);
        commands, lastDisplayed := Append(commands, lastDisplayed, maxCommands, if reuse != [] then reuse else command);
      }
      reset := true;
      return true;
    }

    /** Append the new command, after the oldest one made room if need be. */
    static method Append(commands0: seq<string>, last0: int, max: nat, command: string)
      returns (commands: seq<string>, last: int)
      requires |commands0| <= max && max > 0 && -1 <= last0 <= |commands0| && (|commands0| == max ==> 0 <= last0)
      ensures var room := if |commands0| == max then commands0[1..] else commands0;
              var at := if |commands0| == max then last0 - 1 else last0;
              && commands == room + [command]
              && last == if at == -1 || commands[at] != command then |commands| - 1 else at
    {
      commands, last := commands0, last0;
      if |commands| == max {
        commands := commands[1..];
        last := last - 1;
      }
      commands := commands + [command];
      if last == -1 || commands[last] != command {
        last := |commands| - 1;
      }
    }

    method RetrieveNth(i: int) returns (s: string)
      requires |commands| <= maxCommands && [] !in commands
      modifies this`lastDisplayed
      ensures Value() == ShownNth(old(Value()), i) && Valid(Value())
      ensures commands == [] ==> lastDisplayed == 0
      ensures commands != [] ==> lastDisplayed == Max(0, Min(i, |commands| - 1))
      ensures s == if commands == [] then [] else commands[lastDisplayed]
    {
      if |commands| == 0 {
        lastDisplayed := 0;
        return [];
      }
      lastDisplayed := if i < 0 then 0 else if i > |commands| - 1 then |commands| - 1 else i;
      return commands[lastDisplayed];
    }

    method Retrieve(previous: bool) returns (s: string)
      requires Valid(Value())
      modifies this`lastDisplayed, this`reset
      ensures Value() == Retrieved(old(Value()), previous) && Valid(Value())
      ensures commands != [] && previous ==>
                lastDisplayed == if old(reset) then Max(0, old(lastDisplayed)) else Max(0, old(lastDisplayed) - 1)
      ensures commands != [] && !previous ==> lastDisplayed == Min(|commands| - 1, old(lastDisplayed) + 1)
      ensures reset == (old(reset) && !previous)
      ensures s == if commands == [] then [] else commands[lastDisplayed]
    {
      if previous {
        if reset {
          reset := false;
        } else {
          lastDisplayed := lastDisplayed - 1;
        }
      } else {
        lastDisplayed := lastDisplayed + 1;
      }
      s := RetrieveNth(lastDisplayed);
    }

    method Swap(a: int, b: int)
      requires Valid(Value())
      modifies this`commands
      ensures Value() == Swapped(old(Value()), a, b) && Valid(Value())
      ensures |commands| == |old(commands)|
      ensures forall k :: 0 <= k < |commands| ==>
                commands[k] == old(commands)[if !(0 <= a < |commands| && 0 <= b < |commands|) then k
                                             else if k == a then b else if k == b then a else k]
    {
      StepIsValid(Value(), Op.Swap(a, b));
      if a != b && a >= 0 && a < |commands| && b >= 0 && b < |commands| {
        commands := commands[a := commands[b]][b := commands[a]];
      }
    }

    method Realloc(max: nat)
      requires Valid(Value())
      modifies this
      ensures Value() == Resized(old(Value()), max) && Valid(Value())
      ensures commands == old(commands)[..Min(|old(commands)|, max)] && maxCommands == max
      ensures old(maxCommands) != max ==> reset && lastDisplayed == |commands| - 1
    {
      StepIsValid(Value(), Op.Realloc(max));
      if maxCommands == max {
        return;
      }
      commands := commands[..if |commands| <= max then |commands| else max];
      reset := true;
      lastDisplayed := |commands| - 1;
      maxCommands := max;
    }

    method Empty()
      modifies this
      ensures Value() == Emptied(old(Value())) && Valid(Value())
      ensures commands == [] && lastDisplayed == -1 && reset && maxCommands == old(maxCommands)
    {
      commands := [];
      lastDisplayed := -1;
      reset := true;
    }
  }

  lemma NoneInEmpty(commands: seq<string>, command: string, first: int)
    ensures commands == [] ==> Hit(commands, command, true, first) == -1
    ensures var at := Hit(commands, command, true, first);
            -1 <= at < |commands| && (at >= 0 ==> commands[at] == command)
  {
  }

  lemma SearchedIsValid(h: History, looking: bool)
    requires Valid(h)
    ensures var s := Searched(h, looking);
            Valid(s) && s.commands == h.commands && s.last == h.last && s.max == h.max
  {
  }

  /** The steps by which `Add` makes room. */
  lemma RoomOf(h: History, command: string, suppress: bool, hit: int)
    requires Valid(h) && h.max > 0
    requires hit == if suppress then Hit(h.commands, command, true, Begin(h, h.last, false)) else -1
    ensures var r := Removed(Searched(h, false), hit);
            var room := MadeRoom(h, command, suppress);
            && r.max == h.max && (hit < 0 ==> r.commands == h.commands && r.last == h.last)
            && room.commands == (if |r.commands| == h.max then r.commands[1..] else r.commands)
            && room.last == (if |r.commands| == h.max then r.last - 1 else r.last)
            && -1 <= room.last <= |room.commands|
            && |r.commands| <= h.max && -1 <= r.last <= |r.commands| && (|r.commands| == h.max ==> 0 <= r.last)
  {
    hide Hit;
    RoomIsMade(h, command, suppress);
    SearchedIsValid(h, false);
    RemovedIsValid(Searched(h, false), hit);
  }

  lemma AddedOf(h: History, command: string, suppress: bool)
    requires Valid(h)
    ensures h.max == 0 || command == [] ==> Added(h, command, suppress) == h
    ensures h.max > 0 && command != [] && h.commands != [] && h.commands[|h.commands| - 1] == command ==>
              Added(h, command, suppress) == h.(reset := true)
    ensures !NothingToAdd(h, command) ==>
              var room := MadeRoom(h, command, suppress);
              var commands := room.commands + [command];
              && -1 <= room.last <= |room.commands|
              && Added(h, command, suppress) ==
                 History(commands, if room.last == -1 || commands[room.last] != command then |commands| - 1 else room.last, true, h.max)
  {
    hide Hit, MadeRoom;
    if !NothingToAdd(h, command) {
      RoomIsMade(h, command, suppress);
    }
  }

  // ---------------------------------------------------------------------------------------
  // Runs
  // ---------------------------------------------------------------------------------------

  datatype Op =
    | Add(command: string, suppress: bool)
    | Remove(i: int)
    | Retrieve(previous: bool)
    | RetrieveNth(n: int)
    | Swap(a: int, b: int)
    | Realloc(max: nat)
    | Empty
    | Find(looking: bool)

  ghost function Step(h: History, op: Op): History
    requires Valid(h)
  {
    match op
    case Add(command, suppress) => Added(h, command, suppress)
    case Remove(i) => Removed(h, i)
    case Retrieve(previous) => Retrieved(h, previous)
    case RetrieveNth(n) => ShownNth(h, n)
    case Swap(a, b) => Swapped(h, a, b)
    case Realloc(max) => Resized(h, max)
    case Empty => Emptied(h)
    case Find(looking) => Searched(h, looking)
  }

  lemma AddedIsValid(h: History, command: string, suppress: bool)
    requires Valid(h)
    ensures Valid(Added(h, command, suppress))
    ensures !NothingToAdd(h, command) ==>
              var h' := Added(h, command, suppress);
              0 <= h'.last < |h'.commands| && h'.commands[h'.last] == command
  {
    hide Hit;
    if !NothingToAdd(h, command) {
      RoomIsMade(h, command, suppress);
      var room := MadeRoom(h, command, suppress);
      assert forall k :: 0 <= k < |room.commands| ==> room.commands[k] in room.commands;
      NotIn(room.commands, command);
    }
  }

  lemma NotIn(s: seq<string>, x: string)
    requires [] !in s && x != []
    ensures [] !in s + [x]
  {
  }

  lemma StepIsValid(h: History, op: Op)
    requires Valid(h)
    ensures Valid(Step(h, op))
  {
    match op
    case Add(command, suppress) => AddedIsValid(h, command, suppress);
    case Remove(i) => RemovedIsValid(h, i);
    case Swap(a, b) =>
      var s := Swapped(h, a, b).commands;
      assert forall k :: 0 <= k < |s| ==> s[k] in h.commands;
    case _ =>
  }

  ghost function Run(h: History, ops: seq<Op>): (h': History)
    requires Valid(h)
    ensures Valid(h')
    decreases |ops|
  {
    if ops == [] then h
    else
      StepIsValid(h, ops[0]);
      Run(Step(h, ops[0]), ops[1..])
  }

  // ---------------------------------------------------------------------------------------
  // Duplicates
  // ---------------------------------------------------------------------------------------

  /** The search that should find an old copy begins outside the list: nothing counts as shown last, and the reset
      flag keeps the search from stepping back into the list first. */
  ghost predicate Blind(h: History) {
    h.commands != [] && h.last == -1 && h.reset
  }

  lemma WithoutIsDistinct(s: seq<string>, i: int, x: string)
    requires 0 <= i < |s| && Distinct(s) && s[i] == x
    ensures Distinct(Without(s, i)) && x !in Without(s, i)
  {
    var w := Without(s, i);
    assert forall k :: 0 <= k < |w| ==> w[k] == s[if k < i then k else k + 1];
  }

  lemma TailIsDistinct(s: seq<string>, x: string)
    requires s != [] && Distinct(s) && x !in s
    ensures Distinct(s[1..]) && x !in s[1..]
  {
    assert forall k :: 0 <= k < |s| - 1 ==> s[1..][k] == s[k + 1];
  }

  /** Adding a command with duplicates suppressed keeps the commands distinct exactly when the search was not blind to
      an old copy. */
  lemma AddKeepsDistinct(h: History, command: string)
    requires Valid(h) && Distinct(h.commands)
    ensures Distinct(Added(h, command, true).commands) <==>
            !(Blind(h) && command in h.commands && !NothingToAdd(h, command))
  {
    hide Hit, FoundFrom, Distinct, MadeRoom, Added, Valid, NothingToAdd;
    AddedCommands(h, command, true);
    if !NothingToAdd(h, command) {
      if Blind(h) {
        BlindRoom(h, command);
        DistinctSnoc(h.commands, command);
      } else {
        SightedFinds(h, command);
        RoomIsDistinct(h, command);
        DistinctSnoc(MadeRoom(h, command, true).commands, command);
      }
    }
  }

  lemma AddedCommands(h: History, command: string, suppress: bool)
    requires Valid(h)
    ensures Added(h, command, suppress).commands ==
            if NothingToAdd(h, command) then h.commands else MadeRoom(h, command, suppress).commands + [command]
  {
    hide MadeRoom, Hit;
  }

  lemma BlindRoom(h: History, command: string)
    requires Valid(h) && Blind(h)
    ensures MadeRoom(h, command, true).commands == h.commands
  {
    hide Hit;
    HitOutside(h.commands, command, Begin(h, h.last, false));
  }

  lemma SightedFinds(h: History, command: string)
    requires Valid(h) && !Blind(h)
    ensures Hit(h.commands, command, true, Begin(h, h.last, false)) >= 0 <==> command in h.commands
  {
    hide Hit;
    var first := Begin(h, h.last, false);
    NoneInEmpty(h.commands, command, first);
    if h.commands != [] {
      HitIffPresent(h.commands, command, first);
    }
  }

  lemma HitOutside(commands: seq<string>, command: string, first: int)
    requires !(0 <= first < |commands|)
    ensures Hit(commands, command, true, first) == -1
  {
  }

  lemma DistinctSnoc(s: seq<string>, x: string)
    requires Distinct(s)
    ensures Distinct(s + [x]) <==> x !in s
  {
    var t := s + [x];
    assert t[|s|] == x && forall k :: 0 <= k < |s| ==> t[k] == s[k];
  }

  lemma RoomIsDistinct(h: History, command: string)
    requires Valid(h) && Distinct(h.commands) && !NothingToAdd(h, command)
    requires Hit(h.commands, command, true, Begin(h, h.last, false)) >= 0 <==> command in h.commands
    ensures var room := MadeRoom(h, command, true).commands; Distinct(room) && command !in room
  {
    hide Hit, FoundFrom;
    var hit := Hit(h.commands, command, true, Begin(h, h.last, false));
    NoneInEmpty(h.commands, command, Begin(h, h.last, false));
    var left := Removed(h, hit).commands;
    if hit >= 0 {
      WithoutIsDistinct(h.commands, hit, command);
    }
    assert Distinct(left) && command !in left;
    if left != [] {
      TailIsDistinct(left, command);
    }
  }

  /** Commands are always added with duplicates suppressed, and the one shown last is never removed while others stay. */
  ghost predicate Careful(h: History, ops: seq<Op>)
    requires Valid(h)
    decreases |ops|
  {
    ops == [] ||
    (StepIsValid(h, ops[0]);
     && (ops[0].Add? ==> ops[0].suppress)
     && (ops[0].Remove? ==> ops[0].i != h.last || |h.commands| == 1)
     && Careful(Step(h, ops[0]), ops[1..]))
  }

  /** Then the commands stay distinct for good. */
  lemma {:induction false} DistinctForever(h: History, ops: seq<Op>)
    requires Valid(h) && Distinct(h.commands) && (h.commands != [] ==> h.last >= 0) && Careful(h, ops)
    ensures Distinct(Run(h, ops).commands)
    decreases |ops|
  {
    hide Valid, Added, Removed;
    if ops != [] {
      StepIsValid(h, ops[0]);
      StepKeepsDistinct(h, ops[0]);
      DistinctForever(Step(h, ops[0]), ops[1..]);
    }
  }

  lemma StepKeepsDistinct(h: History, op: Op)
    requires Valid(h) && Distinct(h.commands) && (h.commands != [] ==> h.last >= 0)
    requires op.Add? ==> op.suppress
    requires op.Remove? ==> op.i != h.last || |h.commands| == 1
    ensures var h' := Step(h, op); Distinct(h'.commands) && (h'.commands != [] ==> h'.last >= 0)
  {
    hide Hit, Added, Distinct, Removed;
    match op
    case Add(command, suppress) =>
      AddKeepsDistinct(h, command);
      AddedStaysShown(h, command);
    case Remove(i) =>
      RemoveKeepsDistinct(h, i);
    case Swap(a, b) =>
      SwapKeepsDistinct(h, a, b);
    case Realloc(max) =>
      PrefixIsDistinct(h.commands, max);
    case Empty =>
      NoneAreDistinct();
    case _ =>
  }

  lemma NoneAreDistinct()
    ensures Distinct([])
  {
  }

  lemma PrefixIsDistinct(s: seq<string>, n: nat)
    requires Distinct(s)
    ensures n <= |s| ==> Distinct(s[..n])
  {
  }

  lemma AddedStaysShown(h: History, command: string)
    requires Valid(h) && (h.commands != [] ==> h.last >= 0)
    ensures var h' := Added(h, command, true); h'.commands != [] ==> h'.last >= 0
  {
    hide Hit;
    AddedIsValid(h, command, true);
  }

  lemma RemoveKeepsDistinct(h: History, i: int)
    requires Valid(h) && Distinct(h.commands) && (h.commands != [] ==> h.last >= 0)
    requires i != h.last || |h.commands| == 1
    ensures var h' := Removed(h, i); Distinct(h'.commands) && (h'.commands != [] ==> h'.last >= 0)
  {
    if 0 <= i < |h.commands| {
      WithoutIsDistinct(h.commands, i, h.commands[i]);
    }
  }

  lemma SwapKeepsDistinct(h: History, a: int, b: int)
    requires Distinct(h.commands)
    ensures Distinct(Swapped(h, a, b).commands)
  {
  }

  /** The commands are distinct at every point of a run. */
  ghost predicate Throughout(h: History, ops: seq<Op>)
    requires Valid(h)
    decreases |ops|
  {
    Distinct(h.commands) && (ops == [] || (StepIsValid(h, ops[0]); Throughout(Step(h, ops[0]), ops[1..])))
  }

  /** No addition of a run happens while the search is blind to an old copy. */
  ghost predicate NeverBlind(h: History, ops: seq<Op>)
    requires Valid(h)
    decreases |ops|
  {
    ops == [] ||
    (StepIsValid(h, ops[0]);
     && !(ops[0].Add? && Blind(h) && ops[0].command in h.commands && !NothingToAdd(h, ops[0].command))
     && NeverBlind(Step(h, ops[0]), ops[1..]))
  }

  /** Over every run that always suppresses duplicates the commands stay distinct exactly as long as no addition is
      blind. */
  lemma {:induction false} DistinctIffNeverBlind(h: History, ops: seq<Op>)
    requires Valid(h) && Distinct(h.commands)
    requires forall i :: 0 <= i < |ops| && ops[i].Add? ==> ops[i].suppress
    ensures Throughout(h, ops) <==> NeverBlind(h, ops)
    decreases |ops|
  {
    hide Valid, Step, Distinct, Blind, NothingToAdd;
    if ops != [] {
      StepIsValid(h, ops[0]);
      StepDistinctIff(h, ops[0]);
      if Distinct(Step(h, ops[0]).commands) {
        DistinctIffNeverBlind(Step(h, ops[0]), ops[1..]);
      }
    }
  }

  lemma StepDistinctIff(h: History, op: Op)
    requires Valid(h) && Distinct(h.commands) && (op.Add? ==> op.suppress)
    ensures Distinct(Step(h, op).commands) <==>
            !(op.Add? && Blind(h) && op.command in h.commands && !NothingToAdd(h, op.command))
  {
    hide Hit, Added, Distinct, Removed, Blind, NothingToAdd;
    match op
    case Add(command, suppress) =>
      AddKeepsDistinct(h, command);
    case Remove(i) =>
      RemovedIsDistinct(h, i);
    case Swap(a, b) =>
      SwapKeepsDistinct(h, a, b);
    case Realloc(max) =>
      PrefixIsDistinct(h.commands, max);
    case Empty =>
      NoneAreDistinct();
    case _ =>
  }

  lemma RemovedIsDistinct(h: History, i: int)
    requires Distinct(h.commands)
    ensures Distinct(Removed(h, i).commands)
  {
    if 0 <= i < |h.commands| {
      WithoutIsDistinct(h.commands, i, h.commands[i]);
    }
  }

  /** A command that is not in the list and has room goes to its end. */
  lemma AddNew(h: History, command: string)
    requires Valid(h) && command != [] && command !in h.commands && |h.commands| < h.max && h.last == |h.commands| - 1
    ensures Added(h, command, true) == History(h.commands + [command], |h.commands|, true, h.max)
  {
    hide Hit;
    AddedOf(h, command, true);
    NoneInEmpty(h.commands, command, Begin(h, h.last, false));
    RoomOf(h, command, true, -1);
  }

  lemma RunStep(h: History, op: Op, ops: seq<Op>)
    requires Valid(h)
    ensures Valid(Step(h, op)) && Run(h, [op] + ops) == Run(Step(h, op), ops)
  {
    StepIsValid(h, op);
    assert ([op] + ops)[1..] == ops;
  }

  /** Without that care they need not, even if duplicates are always suppressed: add three commands to a new history,
      remove the last one, and add the first one again. */
  lemma DuplicateAfterRemoval()
    ensures var ops := [Op.Add("a", true), Op.Add("b", true), Op.Add("c", true), Op.Remove(2), Op.Add("a", true)];
            !Distinct(Run(History([], -1, false, 10), ops).commands)
  {
    hide Added, Run, Step, Valid;
    var start := History([], -1, false, 10);
    var tail := [Op.Remove(2), Op.Add("a", true)];
    assert [Op.Add("a", true), Op.Add("b", true), Op.Add("c", true)] + tail ==
           [Op.Add("a", true)] + ([Op.Add("b", true)] + ([Op.Add("c", true)] + tail));
    assert [Op.Add("a", true), Op.Add("b", true), Op.Add("c", true), Op.Remove(2), Op.Add("a", true)] ==
           [Op.Add("a", true), Op.Add("b", true), Op.Add("c", true)] + tail;
    ThreeAdded(start, tail);
    AfterRemoval(History(["a", "b", "c"], 2, true, 10));
  }

  lemma ThreeAdded(start: History, tail: seq<Op>)
    requires start == History([], -1, false, 10)
    ensures Valid(start) && Valid(History(["a", "b", "c"], 2, true, 10))
    ensures Run(start, [Op.Add("a", true)] + ([Op.Add("b", true)] + ([Op.Add("c", true)] + tail))) ==
            Run(History(["a", "b", "c"], 2, true, 10), tail)
  {
    hide Added, Run;
    assert "a"[0] != "b"[0] && "a"[0] != "c"[0] && "b"[0] != "c"[0];
    var one, two := History(["a"], 0, true, 10), History(["a", "b"], 1, true, 10);
    assert [] + ["a"] == one.commands && ["a"] + ["b"] == two.commands && ["a", "b"] + ["c"] == ["a", "b", "c"];
    AddNew(start, "a");
    RunStep(start, Op.Add("a", true), [Op.Add("b", true)] + ([Op.Add("c", true)] + tail));
    AddNew(one, "b");
    RunStep(one, Op.Add("b", true), [Op.Add("c", true)] + tail);
    AddNew(two, "c");
    RunStep(two, Op.Add("c", true), tail);
  }

  lemma AfterRemoval(h: History)
    requires h == History(["a", "b", "c"], 2, true, 10) && Valid(h)
    ensures !Distinct(Run(h, [Op.Remove(2), Op.Add("a", true)]).commands)
  {
    hide Added, Run;
    assert "a"[0] != "b"[0];
    var cut := History(["a", "b"], -1, true, 10);
    assert Removed(h, 2) == cut;
    assert [Op.Remove(2), Op.Add("a", true)] == [Op.Remove(2)] + [Op.Add("a", true)];
    RunStep(h, Op.Remove(2), [Op.Add("a", true)]);
    assert [Op.Add("a", true)] == [Op.Add("a", true)] + [];
    RunStep(cut, Op.Add("a", true), []);
    RunNothing(Step(cut, Op.Add("a", true)));
    AddKeepsDistinct(cut, "a");
    assert cut.commands[0] == "a";
  }

  lemma RunNothing(h: History)
    requires Valid(h)
    ensures Run(h, []) == h
  {
  }
}
