/** Line feeds for a terminal that does not return on its own: a carriage return goes in front of the first line feed
    of every run of carriage returns and line feeds that does not have one. */
module CrlfTranslate {

  ghost const CR: char := '\r'
  ghost const LF: char := '\n'

  ghost predicate IsBreak(c: char) {
    c == CR || c == LF
  }

  /** A terminal: what a character, a carriage return and a bare line feed do to its state. */
  datatype Terminal<!S> = Terminal(put: (S, char) -> S, cr: S -> S, lf: S -> S)

  /** Returning twice is returning once, and moving down keeps the column. */
  ghost predicate Lawful<S(!new)>(t: Terminal<S>) {
    && (forall s :: t.cr(t.cr(s)) == t.cr(s))
    && (forall s :: t.cr(t.lf(s)) == t.lf(t.cr(s)))
  }

  /** One character; with `auto`, a line feed also returns. */
  ghost function Step<S>(t: Terminal<S>, auto: bool, s: S, c: char): S {
    if c == CR then t.cr(s)
    else if c == LF then (if auto then t.cr(t.lf(s)) else t.lf(s))
    else t.put(s, c)
  }

  ghost function Run<S>(t: Terminal<S>, auto: bool, s: S, text: seq<char>): S
    decreases |text|
  {
    if text == [] then s else Run(t, auto, Step(t, auto, s, text[0]), text[1..])
  }

  lemma {:induction false} RunConcat<S>(t: Terminal<S>, auto: bool, s: S, a: seq<char>, b: seq<char>)
    ensures Run(t, auto, s, a + b) == Run(t, auto, Run(t, auto, s, a), b)
    decreases |a|
  {
    if a == [] {
      assert a + b == b;
    } else {
      assert (a + b)[1..] == a[1..] + b;
      RunConcat(t, auto, Step(t, auto, s, a[0]), a[1..], b);
    }
  }

  /** The translation, one character at a time; `home` when the character before was part of a line break. */
  ghost function Translated(home: bool, text: seq<char>): seq<char>
    decreases |text|
  {
    if text == [] then []
    else (if text[0] == LF && !home then [CR, LF] else [text[0]]) + Translated(IsBreak(text[0]), text[1..])
  }

  /** The state a translation of `text` leaves behind. */
  ghost predicate Home(home: bool, text: seq<char>) {
    if text == [] then home else IsBreak(text[|text| - 1])
  }

  lemma {:induction false} TranslatedConcat(home: bool, a: seq<char>, b: seq<char>)
    ensures Translated(home, a + b) == Translated(home, a) + Translated(Home(home, a), b)
    decreases |a|
  {
    hide Translated, IsBreak;
    if a == [] {
      assert a + b == b;
      TranslatedStep(home, a);
    } else {
      assert (a + b)[1..] == a[1..] + b;
      TranslatedConcat(IsBreak(a[0]), a[1..], b);
      TranslatedStep(home, a);
      TranslatedStep(home, a + b);
    }
  }

  lemma TranslatedStep(home: bool, text: seq<char>)
    ensures Translated(home, text) ==
            if text == [] then []
            else (if text[0] == LF && !home then [CR, LF] else [text[0]]) + Translated(IsBreak(text[0]), text[1..])
  {
  }

  /** Text without line feeds, and a run of line breaks after a return, go out as they are. */
  lemma {:induction false} Untouched(home: bool, text: seq<char>)
    requires (forall i :: 0 <= i < |text| ==> text[i] != LF) || (home && forall i :: 0 <= i < |text| ==> IsBreak(text[i]))
    ensures Translated(home, text) == text
    decreases |text|
  {
    if text != [] {
      Untouched(IsBreak(text[0]), text[1..]);
    }
  }

  method Find(text: seq<char>, from: nat) returns (at: nat)
    requires from <= |text|
    ensures from <= at <= |text| && (at < |text| ==> text[at] == LF)
    ensures forall i :: from <= i < at ==> text[i] != LF
  {
    at := from;
    while at < |text| && text[at] != '\n'
      invariant from <= at <= |text| && forall i :: from <= i < at ==> text[i] != LF
    {
      at := at + 1;
    }
  }

  method SkipBreaks(text: seq<char>, from: nat) returns (at: nat)
    requires from < |text|
    ensures from < at <= |text|
    ensures forall i :: from < i < at ==> IsBreak(text[i])
    ensures at < |text| ==> !IsBreak(text[at])
  {
    at := from + 1;
    while at != |text| && (text[at] == '\n' || text[at] == '\r')
      invariant from < at <= |text| && forall i :: from < i < at ==> IsBreak(text[i])
    {
      at := at + 1;
    }
  }

  /** `WriteUTF16TranslateCRLF`: `back` is the buffer it appends to. */
  method WriteTranslateCRLF(back: seq<char>, text: seq<char>) returns (out: seq<char>)
    ensures out == back + Translated(false, text)
  {
    assert Translated(false, text[..0]) == [];
    hide Translated, Home;
    out := back;
    var begCopy, endCopy := 0, 0;
    while true
      invariant 0 <= begCopy <= endCopy <= |text|
      invariant out + text[begCopy..endCopy] == back + Translated(false, text[..endCopy])
      invariant endCopy < |text| ==> text[endCopy] != LF || endCopy == 0
      invariant endCopy == 0 ==> begCopy == 0
      decreases |text| - endCopy
    {
      ghost var before := endCopy;
      endCopy := Find(text, endCopy);
      FoundStep(back, out, text, begCopy, before, endCopy);
      out := out + text[begCopy..endCopy];
      begCopy := endCopy;
      if begCopy == |text| {
        assert text[..endCopy] == text;
        break;
      }
      ghost var bare := out;
      if begCopy == 0 || text[begCopy - 1] != '\r' {
        out := out + ['\r'];
      }
      endCopy := SkipBreaks(text, endCopy);
      BreakStep(back, bare, out, text, before, begCopy, endCopy);
    }
  }

  lemma FoundStep(back: seq<char>, out: seq<char>, text: seq<char>, beg: nat, before: nat, at: nat)
    requires beg <= before <= at <= |text| && forall i :: before <= i < at ==> text[i] != LF
    requires out + text[beg..before] == back + Translated(false, text[..before])
    ensures out + text[beg..at] == back + Translated(false, text[..at])
  {
    hide Translated, Home;
    FoundNext(text, before, at);
    assert text[beg..at] == text[beg..before] + text[before..at];
    Reassociate(out, text[beg..before], text[before..at], back, Translated(false, text[..before]));
  }

  lemma BreakStep(back: seq<char>, bare: seq<char>, out: seq<char>, text: seq<char>, before: nat, at: nat, end: nat)
    requires before <= at < end <= |text| && text[at] == LF && forall i :: at < i < end ==> IsBreak(text[i])
    requires forall i :: before <= i < at ==> text[i] != LF
    requires text[before] != LF || before == 0
    requires bare == back + Translated(false, text[..at])
    requires out == bare + (if at > 0 && text[at - 1] == CR then [] else [CR])
    ensures out + text[at..end] == back + Translated(false, text[..end])
  {
    hide Translated, Home;
    NotAfterLF(text, before, at);
    BreakRun(text, at, end);
    var cr := if at > 0 && text[at - 1] == CR then [] else [CR];
    assert out + text[at..end] == bare + (cr + text[at..end]);
  }

  lemma Reassociate(a: seq<char>, b: seq<char>, c: seq<char>, d: seq<char>, e: seq<char>)
    requires a + b == d + e
    ensures a + (b + c) == d + (e + c)
  {
    assert a + (b + c) == a + b + c == d + e + c == d + (e + c);
  }

  /** A line feed that is found is never right behind another. */
  lemma NotAfterLF(text: seq<char>, before: nat, at: nat)
    requires before <= at < |text| && text[at] == LF
    requires forall i :: before <= i < at ==> text[i] != LF
    requires text[before] != LF || before == 0
    ensures Home(false, text[..at]) <==> at > 0 && text[at - 1] == CR
  {
  }

  lemma FoundNext(text: seq<char>, before: nat, at: nat)
    requires before <= at <= |text| && forall i :: before <= i < at ==> text[i] != LF
    ensures Translated(false, text[..at]) == Translated(false, text[..before]) + text[before..at]
  {
    assert text[..at] == text[..before] + text[before..at];
    TranslatedConcat(false, text[..before], text[before..at]);
    Untouched(Home(false, text[..before]), text[before..at]);
  }

  lemma BreakRun(text: seq<char>, at: nat, end: nat)
    requires at < end <= |text| && text[at] == LF && forall i :: at < i < end ==> IsBreak(text[i])
    ensures Translated(false, text[..end]) ==
            Translated(false, text[..at]) + Translated(Home(false, text[..at]), text[at..end])
    ensures Translated(Home(false, text[..at]), text[at..end]) ==
            (if Home(false, text[..at]) then [] else [CR]) + text[at..end]
  {
    hide Translated, Home;
    assert text[..end] == text[..at] + text[at..end];
    TranslatedConcat(false, text[..at], text[at..end]);
    RunOfBreaks(Home(false, text[..at]), text[at..end]);
  }

  lemma RunOfBreaks(home: bool, run: seq<char>)
    requires run != [] && run[0] == LF && forall i :: 0 < i < |run| ==> IsBreak(run[i])
    ensures Translated(home, run) == (if home then [] else [CR]) + run
  {
    assert run == [LF] + run[1..];
    Untouched(true, run[1..]);
    assert [CR] + ([LF] + run[1..]) == [CR, LF] + run[1..];
  }

  // ---------------------------------------------------------------------------------------
  // Meaning
  // ---------------------------------------------------------------------------------------

  /** Translated text on a terminal that only moves down does what the original does on one that also returns. */
  lemma {:induction false} SameScreen<S(!new)>(t: Terminal<S>, home: bool, s: S, text: seq<char>)
    requires Lawful(t) && (home ==> t.cr(s) == s)
    ensures Run(t, false, s, Translated(home, text)) == Run(t, true, s, text)
    decreases |text|
  {
    if text != [] {
      var c := text[0];
      var piece := if c == LF && !home then [CR, LF] else [c];
      var s' := Step(t, true, s, c);
      OnePiece(t, home, s, c);
      RunConcat(t, false, s, piece, Translated(IsBreak(c), text[1..]));
      SameScreen(t, IsBreak(c), s', text[1..]);
    }
  }

  lemma OnePiece<S(!new)>(t: Terminal<S>, home: bool, s: S, c: char)
    requires Lawful(t) && (home ==> t.cr(s) == s)
    ensures Run(t, false, s, if c == LF && !home then [CR, LF] else [c]) == Step(t, true, s, c)
    ensures IsBreak(c) ==> t.cr(Step(t, true, s, c)) == Step(t, true, s, c)
  {
    var piece := if c == LF && !home then [CR, LF] else [c];
    assert piece[1..] == if c == LF && !home then [LF] else [];
    if c == LF && !home {
      assert [LF][1..] == [];
      assert Run(t, false, s, piece) == Run(t, false, t.cr(s), [LF]) == t.lf(t.cr(s));
    } else {
      assert Run(t, false, s, piece) == Step(t, false, s, c);
    }
  }

  /** Several writes in a row need no memory of one another. */
  ghost function TranslatedAll(writes: seq<seq<char>>): seq<char> {
    if writes == [] then [] else Translated(false, writes[0]) + TranslatedAll(writes[1..])
  }

  ghost function Joined(writes: seq<seq<char>>): seq<char> {
    if writes == [] then [] else writes[0] + Joined(writes[1..])
  }

  lemma {:induction false} SameScreenOverWrites<S(!new)>(t: Terminal<S>, s: S, writes: seq<seq<char>>)
    requires Lawful(t)
    ensures Run(t, false, s, TranslatedAll(writes)) == Run(t, true, s, Joined(writes))
    decreases |writes|
  {
    if writes != [] {
      SameScreen(t, false, s, writes[0]);
      RunConcat(t, false, s, Translated(false, writes[0]), TranslatedAll(writes[1..]));
      RunConcat(t, true, s, writes[0], Joined(writes[1..]));
      SameScreenOverWrites(t, Run(t, true, s, writes[0]), writes[1..]);
    }
  }

  /** Translating again changes nothing. */
  lemma {:induction false} Idempotent(home: bool, text: seq<char>)
    ensures Translated(home, Translated(home, text)) == Translated(home, text)
    decreases |text|
  {
    if text != [] {
      var c := text[0];
      var piece := if c == LF && !home then [CR, LF] else [c];
      var rest := Translated(IsBreak(c), text[1..]);
      Idempotent(IsBreak(c), text[1..]);
      TranslatedConcat(home, piece, rest);
      PieceStays(home, c);
    }
  }

  lemma PieceStays(home: bool, c: char)
    ensures var piece := if c == LF && !home then [CR, LF] else [c];
            Translated(home, piece) == piece && Home(home, piece) == IsBreak(c)
  {
    if c == LF && !home {
      assert [CR, LF][1..] == [LF] && [LF][1..] == [];
      assert Translated(true, [LF]) == [LF];
    } else {
      assert [c][1..] == [];
    }
  }

  // ---------------------------------------------------------------------------------------
  // A screen
  // ---------------------------------------------------------------------------------------

  /** Rows of text, a cursor, and whether the next character first wraps to a new row. */
  datatype Screen = Screen(rows: seq<seq<char>>, row: nat, col: nat, wrap: bool)

  ghost function Return(s: Screen): Screen {
    s.(col := 0, wrap := false)
  }

  /** Down one row; in the bottom row everything scrolls up. */
  ghost function Down(s: Screen): Screen {
    var t := s.(wrap := false);
    if s.row + 1 < |s.rows| then t.(row := s.row + 1)
    else if s.rows == [] then t
    else t.(rows := s.rows[1..] + [[]])
  }

  ghost function Put(width: nat, s: Screen, c: char): Screen {
    var t := if s.wrap then Return(Down(s)) else s;
    var rows := if t.row < |t.rows| && t.col <= |t.rows[t.row]|
                then t.rows[t.row := t.rows[t.row][..t.col] + [c] + (if t.col < |t.rows[t.row]| then t.rows[t.row][t.col + 1..] else [])]
                else t.rows;
    if t.col + 1 < width then t.(rows := rows, col := t.col + 1) else t.(rows := rows, wrap := true)
  }

  /** Such a screen is lawful, so the translation shows on it what was meant. */
  lemma ScreenIsLawful(width: nat, s: Screen, text: seq<char>)
    ensures var t := Terminal((s: Screen, c: char) => Put(width, s, c), s => Return(s), s => Down(s));
            && Lawful(t)
            && Run(t, false, s, Translated(false, text)) == Run(t, true, s, text)
  {
    var t := Terminal((s: Screen, c: char) => Put(width, s, c), (s: Screen) => Return(s), (s: Screen) => Down(s));
    assert Lawful(t);
    SameScreen(t, false, s, text);
  }
}
