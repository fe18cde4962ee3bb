/** The cooked-read editor: its buffer and cursor, the search for where a prompt must have started, and the pager
    that keeps the cursor on screen. */
module CookedRead {
  import opened Numbers
  import opened CookedLayout

  datatype Pos = Pos(x: int, y: int)

  ghost function Abs(n: int): int {
    if n < 0 then -n else n
  }

  // ---------------------------------------------------------------------------------------
  // Where did the prompt start?
  // ---------------------------------------------------------------------------------------

  /** Flowing a text from a column onto rows: the column it ends in and the number of rows it filled. */
  ghost function Flow(text: seq<Glyph>, width: int, column: int): (r: (int, nat))
    requires CanFlow(text, width) && 0 <= column < width
    ensures 0 <= r.0 < width
    decreases |text|, column
  {
    if text == [] then (column, 0)
    else
      var row := Layout(text, column, width, true);
      RowBounds(text, column, width, true);
      assert column == 0 ==> row.consumed > 0 by {
        if column == 0 {
          EdgeConsumes(text, width);
        }
      }
      if row.column >= width then
        var later := Flow(text[row.consumed..], width, 0);
        (later.0, later.1 + 1)
      else Flow(text[row.consumed..], width, row.column)
  }

  /** One attempt of the search: lay the text out from a given column. */
  method Measure(text: seq<Glyph>, width: int, column: int) returns (endColumn: int, newlines: nat)
    requires CanFlow(text, width) && 0 <= column < width
    ensures (endColumn, newlines) == Flow(text, width, column)
  {
    hide Layout;
    endColumn, newlines := column, 0;
    var beg := 0;
    assert text[0..] == text;
    while beg < |text|
      invariant 0 <= beg <= |text| && 0 <= endColumn < width && CanFlow(text[beg..], width)
      invariant Flow(text, width, column) ==
                (Flow(text[beg..], width, endColumn).0, newlines + Flow(text[beg..], width, endColumn).1)
      decreases |text| - beg, endColumn
    {
      RowBounds(text[beg..], endColumn, width, true);
      if endColumn == 0 {
        EdgeConsumes(text[beg..], width);
      }
      ghost var tail := text[beg..];
      var out, next, reached := LayoutLine([], text, beg, endColumn, width);
      assert text[next..] == tail[next - beg..];
      beg, endColumn := next, reached;
      if endColumn >= width {
        endColumn, newlines := 0, newlines + 1;
      }
    }
    assert text[beg..] == [];
  }

  /** How far from the cursor a text ends that starts in column `c`. */
  ghost function Distance(text: seq<Glyph>, width: int, c: int, cursor: int): nat
    requires CanFlow(text, width) && 0 <= c < width
  {
    Abs(Flow(text, width, c).0 - cursor)
  }

  /** The order in which columns are tried around a guess: 0, 1, -1, 2, -2, and so on. */
  function SearchOffset(i: nat): int {
    if i % 2 == 1 then i / 2 + 1 else -(i / 2)
  }

  /** The guess first, and then one column further to the right and to the left in turn. */
  lemma ZigZag(n: nat)
    ensures SearchOffset(0) == 0 && SearchOffset(2 * n + 1) == n + 1 && SearchOffset(2 * n + 2) == -(n + 1)
  {
  }

  /** Every column is tried, whatever the guess. */
  lemma EveryColumnTried(width: int, guess: int, c: int) returns (i: nat)
    requires 0 <= guess < width && 0 <= c < width
    ensures i <= 2 * width && guess + SearchOffset(i) == c
  {
    i := if c > guess then 2 * (c - guess) - 1 else 2 * (guess - c);
  }

  /** The constructor's search for the start column: no column explains the cursor position better, and none of those tried
      before does as well. `tried` is the number of attempts before. */
  method FindStartColumn(text: seq<Glyph>, width: int, cursor: int) returns (column: int, newlines: nat, ghost tried: nat)
    requires CanFlow(text, width)
    ensures 0 <= column < width && newlines == Flow(text, width, column).1
    ensures forall c :: 0 <= c < width ==> Distance(text, width, column, cursor) <= Distance(text, width, c, cursor)
    ensures var guess := (cursor - |text| % width + width) % width;
            && column == guess + SearchOffset(tried)
            && forall k :: 0 <= k < tried ==>
                             Worse(text, width, guess + SearchOffset(k), cursor, Distance(text, width, column, cursor))
  {
    hide Flow, SearchOffset, CanFlow;
    WidthIsPositive(text, width);
    ZigZag(0);
    var guess := (cursor - |text| % width + width) % width;
    column, newlines, tried := guess, 0, 0;
    var best := -1;
    var i := 0;
    while i <= 2 * width
      invariant 0 <= i <= 2 * width + 1
      invariant best == -1 ==> i == 0
      invariant best != -1 ==> 0 <= column < width && newlines == Flow(text, width, column).1
      invariant best != -1 ==> best == Distance(text, width, column, cursor) && column == guess + SearchOffset(tried)
      invariant best != -1 ==> forall k :: 0 <= k < tried ==> Worse(text, width, guess + SearchOffset(k), cursor, best)
      invariant best != 0 ==> forall k :: 0 <= k < i ==> NoBetter(text, width, guess + SearchOffset(k), cursor, best)
      invariant best == 0 ==> i == 2 * width + 1
    {
      var c := guess + SearchOffset(i);
      i := i + 1;
      if 0 <= c < width {
        var end, rows := Measure(text, width, c);
        var distance := if end < cursor then cursor - end else end - cursor;
        if best == -1 || distance < best {
          tried := i - 1;
          best, column, newlines := distance, c, rows;
        }
        if distance == 0 {
          i := 2 * width + 1;
        }
      }
    }
    forall c | 0 <= c < width
      ensures Distance(text, width, column, cursor) <= Distance(text, width, c, cursor)
    {
      var k := EveryColumnTried(width, guess, c);
      if best != 0 {
        assert NoBetter(text, width, guess + SearchOffset(k), cursor, best);
      }
    }
  }

  ghost predicate Worse(text: seq<Glyph>, width: int, c: int, cursor: int, best: int)
    requires CanFlow(text, width)
  {
    0 <= c < width ==> best < Distance(text, width, c, cursor)
  }

  ghost predicate NoBetter(text: seq<Glyph>, width: int, c: int, cursor: int, best: int)
    requires CanFlow(text, width)
  {
    0 <= c < width ==> best <= Distance(text, width, c, cursor)
  }

  // ---------------------------------------------------------------------------------------
  // Redisplay
  // ---------------------------------------------------------------------------------------

  datatype Line = Line(text: seq<Mark>, dirtyBegOffset: nat, dirtyBegColumn: int, columns: int)

  const NEW_LINE: Line := Line([], 0, 0, 0)

  /** The lines laid out so far; `column` is where the last one ends. */
  ghost predicate Laid(lines: seq<Line>, column: int) {
    lines != [] && 0 <= column && lines[|lines| - 1].columns == column
  }

  /** A full row is left only for the sake of a further glyph. */
  ghost function Begin(width: int, at: Pos): Pos {
    if at.x >= width then Pos(0, at.y + 1) else at
  }

  /** The next row of a text: it takes something, or fills a row that was begun. */
  ghost function RowAt(text: seq<Glyph>, width: int, at: Pos): (row: Row)
    requires text != [] && CanFlow(text, width) && 0 <= at.x
    ensures row == Layout(text, Begin(width, at).x, width, true)
    ensures row.consumed <= |text| && 0 <= row.column <= width && CanFlow(text[row.consumed..], width)
    ensures row.consumed > 0 || (row.column >= width && 0 < at.x < width)
  {
    var x := Begin(width, at).x;
    RowBounds(text, x, width, true);
    assert x == 0 ==> Layout(text, x, width, true).consumed > 0 by {
      if x == 0 {
        EdgeConsumes(text, width);
      }
    }
    Layout(text, x, width, true)
  }

  /** Where a text ends that is laid out from a position. */
  ghost function Walk(text: seq<Glyph>, width: int, at: Pos): (end: Pos)
    requires CanFlow(text, width) && 0 <= at.x
    ensures 0 <= end.x && at.y <= end.y
    ensures text != [] ==> end.x <= width && (at.x >= width ==> at.y < end.y)
    decreases |text|, if at.x >= width || at.x == 0 then 0 else 1
  {
    if text == [] then at
    else
      var row := RowAt(text, width, at);
      Walk(text[row.consumed..], width, Pos(row.column, Begin(width, at).y))
  }

  /** The glyphs that show as themselves when a text is laid out from a position, and the number of those that do not. */
  ghost function Visible(text: seq<Glyph>, width: int, at: Pos): seq<Glyph>
    requires CanFlow(text, width) && 0 <= at.x
    decreases |text|, if at.x >= width || at.x == 0 then 0 else 1
  {
    if text == [] then []
    else
      var row := RowAt(text, width, at);
      Shown(row.out) + Visible(text[row.consumed..], width, Pos(row.column, Begin(width, at).y))
  }

  ghost function Lost(text: seq<Glyph>, width: int, at: Pos): nat
    requires CanFlow(text, width) && 0 <= at.x
    decreases |text|, if at.x >= width || at.x == 0 then 0 else 1
  {
    if text == [] then 0
    else
      var row := RowAt(text, width, at);
      (if Drops(text, Begin(width, at).x, width, true) then 1 else 0) +
      Lost(text[row.consumed..], width, Pos(row.column, Begin(width, at).y))
  }

  lemma Rows(text: seq<Glyph>, width: int, at: Pos)
    requires text != [] && CanFlow(text, width) && 0 <= at.x
    ensures var row := RowAt(text, width, at);
            var next := Pos(row.column, Begin(width, at).y);
            && Walk(text, width, at) == Walk(text[row.consumed..], width, next)
            && Visible(text, width, at) == Shown(row.out) + Visible(text[row.consumed..], width, next)
            && Lost(text, width, at) ==
               (if Drops(text, Begin(width, at).x, width, true) then 1 else 0) + Lost(text[row.consumed..], width, next)
  {
    hide Layout, Drops, Shown;
  }

  /** A text shows all its plain glyphs, in order, exactly when no row drops one. */
  lemma {:induction false} VisibleIffNoneLost(text: seq<Glyph>, width: int, at: Pos)
    requires CanFlow(text, width) && 0 <= at.x
    ensures |Visible(text, width, at)| + Lost(text, width, at) == |PlainOf(text)|
    ensures Visible(text, width, at) == PlainOf(text) <==> Lost(text, width, at) == 0
    decreases |text|, if at.x >= width || at.x == 0 then 0 else 1
  {
    hide Layout, Drops, Shown, PlainOf, Visible, Lost, CanFlow, Walk;
    if text == [] {
      NothingLost(width, at);
    } else {
      var row := RowAt(text, width, at);
      Rows(text, width, at);
      RowShowsAllBut(text, Begin(width, at).x, width);
      VisibleIffNoneLost(text[row.consumed..], width, Pos(row.column, Begin(width, at).y));
      assert text == text[..row.consumed] + text[row.consumed..];
      PlainConcat(text[..row.consumed], text[row.consumed..]);
    }
  }

  lemma NothingLost(width: int, at: Pos)
    requires CanFlow([], width) && 0 <= at.x
    ensures Visible([], width, at) == [] && Lost([], width, at) == 0 && PlainOf([]) == []
  {
  }

  /** What the lines laid out so far show. */
  ghost function ShownLines(lines: seq<Line>): seq<Glyph> {
    if lines == [] then [] else ShownLines(lines[..|lines| - 1]) + Shown(lines[|lines| - 1].text)
  }

  lemma ShownLinesSnoc(lines: seq<Line>, line: Line)
    ensures ShownLines(lines + [line]) == ShownLines(lines) + Shown(line.text)
  {
    assert (lines + [line])[..|lines|] == lines;
  }

  /** The last line is continued. */
  lemma LineContinued(lines: seq<Line>, line: Line, out: seq<Mark>)
    requires lines != [] && line.text == lines[|lines| - 1].text + out
    ensures ShownLines(lines[|lines| - 1 := line]) == ShownLines(lines) + Shown(out)
  {
    hide Shown;
    var front := lines[..|lines| - 1];
    assert lines == front + [lines[|lines| - 1]] && lines[|lines| - 1 := line] == front + [line];
    ShownLinesSnoc(front, lines[|lines| - 1]);
    ShownLinesSnoc(front, line);
    ShownConcat(lines[|lines| - 1].text, out);
  }

  lemma LineBegun(lines: seq<Line>)
    ensures ShownLines(lines + [NEW_LINE]) == ShownLines(lines)
  {
    ShownLinesSnoc(lines, NEW_LINE);
  }

  /** The cursor: after the text in front of it, which is laid out in two parts if the dirty mark lies inside. */
  ghost function CursorAt(buffer: seq<Glyph>, cursor: nat, dirtyBeg: nat, originX: int, width: int): Pos
    requires cursor <= |buffer| && dirtyBeg <= |buffer| && 0 <= originX && CanFlow(buffer, width)
  {
    var raw := if dirtyBeg < cursor then Walk(buffer[dirtyBeg..cursor], width, Walk(buffer[..dirtyBeg], width, Pos(originX, 0)))
               else Walk(buffer[..cursor], width, Pos(originX, 0));
    if raw.x >= width then Pos(0, raw.y + 1) else raw
  }

  /** Every line is clean up to its end. */
  ghost predicate AllClean(lines: seq<Line>) {
    forall i :: 0 <= i < |lines| ==>
                  lines[i].dirtyBegOffset == |lines[i].text| && lines[i].dirtyBegColumn == lines[i].columns
  }

  /** Only dirty text was added: to the last line, behind where it already was dirty, and on lines that are dirty from
      their beginning. */
  ghost predicate Dirtied(lines0: seq<Line>, lines: seq<Line>) {
    && 0 < |lines0| <= |lines|
    && (forall i :: 0 <= i < |lines0| - 1 ==> lines[i] == lines0[i])
    && (var a, b := lines0[|lines0| - 1], lines[|lines0| - 1];
        b.dirtyBegOffset == a.dirtyBegOffset && b.dirtyBegColumn == a.dirtyBegColumn && a.text <= b.text)
    && forall i :: |lines0| <= i < |lines| ==> lines[i].dirtyBegOffset == 0 && lines[i].dirtyBegColumn == 0
  }

  lemma DirtiedOn(a: seq<Line>, b: seq<Line>, c: seq<Line>)
    requires Dirtied(a, b) && Dirtied(b, c)
    ensures Dirtied(a, c)
  {
  }

  lemma NotDirtied(lines: seq<Line>)
    requires lines != []
    ensures Dirtied(lines, lines)
  {
  }

  /** Where the dirty part begins: the lines above are clean, the line it begins in is dirty from that column on, and the
      lines below are dirty as a whole. */
  ghost predicate DirtyFrom(lines: seq<Line>, at: Pos) {
    && 0 <= at.y < |lines|
    && (forall i :: 0 <= i < at.y ==> lines[i].dirtyBegOffset == |lines[i].text|)
    && lines[at.y].dirtyBegOffset <= |lines[at.y].text| && lines[at.y].dirtyBegColumn == at.x
    && forall i :: at.y < i < |lines| ==> lines[i].dirtyBegOffset == 0 && lines[i].dirtyBegColumn == 0
  }

  /** What the lines show in front of where they are dirty. */
  ghost function CleanShown(lines: seq<Line>): seq<Glyph> {
    if lines == [] then []
    else
      var last := lines[|lines| - 1];
      CleanShown(lines[..|lines| - 1]) + Shown(if last.dirtyBegOffset <= |last.text| then last.text[..last.dirtyBegOffset] else [])
  }

  lemma {:induction false} AllCleanShown(lines: seq<Line>)
    requires AllClean(lines)
    ensures CleanShown(lines) == ShownLines(lines)
    decreases |lines|
  {
    hide Shown;
    if lines != [] {
      var last := lines[|lines| - 1];
      assert last.text[..last.dirtyBegOffset] == last.text;
      AllCleanShown(lines[..|lines| - 1]);
    }
  }

  lemma {:induction false} DirtiedShown(lines0: seq<Line>, lines: seq<Line>)
    requires Dirtied(lines0, lines) && lines0[|lines0| - 1].dirtyBegOffset <= |lines0[|lines0| - 1].text|
    ensures CleanShown(lines) == CleanShown(lines0)
    decreases |lines|
  {
    hide Shown;
    var n := |lines| - 1;
    if |lines0| == |lines| {
      assert lines[..n] == lines0[..n];
      var a, b := lines0[n], lines[n];
      assert b.text[..a.dirtyBegOffset] == a.text[..a.dirtyBegOffset];
    } else {
      DirtiedShown(lines0, lines[..n]);
      assert lines[n].text[..0] == [];
      NothingShown();
    }
  }

  /** The clean lines, with dirty text added. */
  lemma DirtyAfter(clean: seq<Line>, column: int, lines: seq<Line>)
    requires AllClean(clean) && Laid(clean, column) && Dirtied(clean, lines)
    ensures DirtyFrom(lines, Pos(column, |clean| - 1)) && CleanShown(lines) == ShownLines(clean)
  {
    hide Shown, CleanShown, ShownLines;
    AllCleanShown(clean);
    DirtiedShown(clean, lines);
  }

  /** Lay out one of the three segments of the buffer. A new line is begun only when there is something to put on
      it, so a non-empty segment after a full line always begins one. */
  method LayoutSegment(lines0: seq<Line>, column0: int, segment: seq<Glyph>, width: int, dirty: bool)
    returns (lines: seq<Line>, column: int)
    requires Laid(lines0, column0) && CanFlow(segment, width)
    ensures Laid(lines, column)
    ensures Pos(column, |lines| - 1) == Walk(segment, width, Pos(column0, |lines0| - 1))
    ensures ShownLines(lines) == ShownLines(lines0) + Visible(segment, width, Pos(column0, |lines0| - 1))
    ensures !dirty && AllClean(lines0) ==> AllClean(lines)
    ensures dirty ==> Dirtied(lines0, lines)
  {
    hide Layout, Walk, Visible, Lost, Shown, ShownLines, CanFlow, AllClean, Dirtied;
    lines, column := lines0, column0;
    NotDirtied(lines);
    var beg := 0;
    assert segment[0..] == segment;
    while beg < |segment|
      invariant 0 <= beg <= |segment| && Laid(lines, column) && CanFlow(segment[beg..], width)
      invariant Walk(segment, width, Pos(column0, |lines0| - 1)) == Walk(segment[beg..], width, Pos(column, |lines| - 1))
      invariant ShownLines(lines0) + Visible(segment, width, Pos(column0, |lines0| - 1)) ==
                ShownLines(lines) + Visible(segment[beg..], width, Pos(column, |lines| - 1))
      invariant !dirty && AllClean(lines0) ==> AllClean(lines)
      invariant dirty ==> Dirtied(lines0, lines)
      decreases |segment| - beg, if column >= width || column == 0 then 0 else 1
    {
      ghost var tail, at := segment[beg..], Pos(column, |lines| - 1);
      ghost var row := RowAt(tail, width, at);
      Rows(tail, width, at);
      var next;
      ghost var before := lines;
      lines, column, next := NextRow(lines, column, segment, beg, width, dirty);
      if dirty {
        DirtiedOn(lines0, before, lines);
      }
      assert segment[next..] == tail[row.consumed..];
      beg := next;
    }
    assert segment[beg..] == [];
    WalkNothing(width, Pos(column, |lines| - 1));
  }

  /** One round of the layout loop. */
  method NextRow(lines0: seq<Line>, column0: int, segment: seq<Glyph>, beg: nat, width: int, dirty: bool)
    returns (lines: seq<Line>, column: int, next: nat)
    requires Laid(lines0, column0) && beg < |segment| && CanFlow(segment[beg..], width)
    ensures Laid(lines, column)
    ensures var at := Pos(column0, |lines0| - 1);
            var row := RowAt(segment[beg..], width, at);
            && next == beg + row.consumed && Pos(column, |lines| - 1) == Pos(row.column, Begin(width, at).y)
            && ShownLines(lines) == ShownLines(lines0) + Shown(row.out)
    ensures !dirty && AllClean(lines0) ==> AllClean(lines)
    ensures dirty ==> Dirtied(lines0, lines)
  {
    hide Layout, Shown, ShownLines, CanFlow;
    lines := lines0;
    WidthIsPositive(segment[beg..], width);
    if column0 >= width {
      LineBegun(lines);
      lines := lines + [NEW_LINE];
    }
    var line := lines[|lines| - 1];
    ghost var row := RowAt(segment[beg..], width, Pos(column0, |lines0| - 1));
    var text;
    text, next, column := LayoutLine(line.text, segment, beg, line.columns, width);
    line := line.(text := text, columns := column);
    if !dirty {
      line := line.(dirtyBegOffset := |text|, dirtyBegColumn := column);
    }
    LineContinued(lines, line, row.out);
    lines := lines[|lines| - 1 := line];
  }

  lemma WidthIsPositive(text: seq<Glyph>, width: int)
    requires CanFlow(text, width)
    ensures width > 0
  {
  }

  /** What the three segments of the buffer show. Where they begin depends on the cursor and the dirty mark. */
  ghost function VisibleBuffer(buffer: seq<Glyph>, cursor: nat, dirtyBeg: nat, originX: int, width: int): seq<Glyph>
    requires cursor <= |buffer| && dirtyBeg <= |buffer| && 0 <= originX && CanFlow(buffer, width)
  {
    var a, b := Min(dirtyBeg, cursor), Max(dirtyBeg, cursor);
    FlowParts(buffer, width, a, b);
    var one := Walk(buffer[0..a], width, Pos(originX, 0));
    var two := Walk(buffer[a..b], width, one);
    Visible(buffer[0..a], width, Pos(originX, 0)) + Visible(buffer[a..b], width, one) +
    Visible(buffer[b..|buffer|], width, two)
  }

  ghost function LostInBuffer(buffer: seq<Glyph>, cursor: nat, dirtyBeg: nat, originX: int, width: int): nat
    requires cursor <= |buffer| && dirtyBeg <= |buffer| && 0 <= originX && CanFlow(buffer, width)
  {
    var a, b := Min(dirtyBeg, cursor), Max(dirtyBeg, cursor);
    FlowParts(buffer, width, a, b);
    var one := Walk(buffer[0..a], width, Pos(originX, 0));
    var two := Walk(buffer[a..b], width, one);
    Lost(buffer[0..a], width, Pos(originX, 0)) + Lost(buffer[a..b], width, one) + Lost(buffer[b..|buffer|], width, two)
  }

  /** The buffer shows all its plain glyphs, in order, exactly when none of its segments drops one. */
  lemma BufferVisibleIff(buffer: seq<Glyph>, cursor: nat, dirtyBeg: nat, originX: int, width: int)
    requires cursor <= |buffer| && dirtyBeg <= |buffer| && 0 <= originX && CanFlow(buffer, width)
    ensures VisibleBuffer(buffer, cursor, dirtyBeg, originX, width) == PlainOf(buffer) <==>
            LostInBuffer(buffer, cursor, dirtyBeg, originX, width) == 0
  {
    hide Walk, Visible, Lost, PlainOf, CanFlow;
    var a, b := Min(dirtyBeg, cursor), Max(dirtyBeg, cursor);
    FlowParts(buffer, width, a, b);
    var one := Walk(buffer[0..a], width, Pos(originX, 0));
    var two := Walk(buffer[a..b], width, one);
    VisibleIffNoneLost(buffer[0..a], width, Pos(originX, 0));
    VisibleIffNoneLost(buffer[a..b], width, one);
    VisibleIffNoneLost(buffer[b..|buffer|], width, two);
    assert buffer == buffer[0..a] + buffer[a..b] + buffer[b..|buffer|];
    PlainConcat(buffer[0..a], buffer[a..b]);
    PlainConcat(buffer[0..a] + buffer[a..b], buffer[b..|buffer|]);
  }

  /** Moving the cursor is enough to make a wide glyph vanish: behind the text both glyphs show, between them only the
      first. */
  lemma CursorHidesGlyph(x: int, y: int)
    ensures var buffer := [Narrow(x), Wide(y)];
            && VisibleBuffer(buffer, 2, 2, 0, 2) == buffer
            && VisibleBuffer(buffer, 1, 2, 0, 2) == [Narrow(x)]
  {
    var n, w := Narrow(x), Wide(y);
    var buffer := [n, w];
    assert buffer[0..2] == buffer && buffer[2..2] == [] && buffer[0..1] == [n] && buffer[1..2] == [w];
    NarrowThenWide(x, y);
    WideAlone(y);
    NarrowAlone(x);
  }

  lemma NarrowThenWide(x: int, y: int)
    ensures var buffer := [Narrow(x), Wide(y)]; Visible(buffer, 2, Pos(0, 0)) == buffer
  {
    hide Visible, Walk, Lost;
    var buffer := [Narrow(x), Wide(y)];
    assert buffer[1..] == [Wide(y)] && [Wide(y)][1..] == [];
    assert Layout([Wide(y)], 1, 2, false) == Row(0, 2, []);
    assert Layout(buffer, 0, 2, true) == Row(1, 2, [Show(Narrow(x))]);
    assert Layout([Wide(y)], 0, 2, true) == Row(1, 2, [Show(Wide(y))]);
    OneShown(Narrow(x));
    OneShown(Wide(y));
    Rows(buffer, 2, Pos(0, 0));
    Rows([Wide(y)], 2, Pos(2, 0));
    NothingLost(2, Pos(2, 1));
  }

  lemma NarrowAlone(x: int)
    ensures Visible([Narrow(x)], 2, Pos(0, 0)) == [Narrow(x)] && Walk([Narrow(x)], 2, Pos(0, 0)) == Pos(1, 0)
  {
    hide Visible, Walk, Lost;
    var text := [Narrow(x)];
    assert text[1..] == [];
    assert Layout(text, 0, 2, true) == Row(1, 1, [Show(Narrow(x))]);
    OneShown(Narrow(x));
    Rows(text, 2, Pos(0, 0));
    NothingLost(2, Pos(1, 0));
    WalkNothing(2, Pos(1, 0));
  }

  lemma WideAlone(y: int)
    ensures Visible([Wide(y)], 2, Pos(1, 0)) == []
  {
    hide Visible, Walk, Lost;
    var text := [Wide(y)];
    assert text[1..] == [];
    assert Layout(text, 1, 2, true) == Row(1, 1, []);
    Rows(text, 2, Pos(1, 0));
    NothingLost(2, Pos(1, 0));
    NothingShown();
  }

  /** The layout of the whole buffer: its lines, what they show, and the cursor's row and column within them. */
  method LayoutBuffer(buffer: seq<Glyph>, cursor: nat, dirtyBeg: nat, originX: int, width: int)
    returns (lines: seq<Line>, at: Pos)
    requires cursor <= |buffer| && dirtyBeg <= |buffer| && 0 <= originX && CanFlow(buffer, width)
    ensures lines != [] && 0 <= at.x < width && 0 <= at.y < |lines|
    ensures at == CursorAt(buffer, cursor, dirtyBeg, originX, width)
    ensures |lines| == LineCount(buffer, cursor, dirtyBeg, originX, width)
    ensures ShownLines(lines) == VisibleBuffer(buffer, cursor, dirtyBeg, originX, width)
    ensures DirtyFrom(lines, CleanEnd(buffer, cursor, dirtyBeg, originX, width))
    ensures CleanShown(lines) == CleanVisible(buffer, cursor, dirtyBeg, originX, width)
  {
    hide Walk, Visible, Lost, ShownLines, AllClean, Dirtied, DirtyFrom, CleanShown;
    at := Pos(originX, 0);
    lines := [Line([], 0, originX, originX)];
    FirstLine(lines[0]);
    var column := originX;
    var a, b := Min(dirtyBeg, cursor), Max(dirtyBeg, cursor);
    FlowParts(buffer, width, a, b);
    assert buffer[0..a] == buffer[..a];
    WalkNothing(width, Pos(originX, 0));
    ghost var clean, cleanColumn := lines, column;
    lines, column, at := Segment(lines, column, at, buffer, 0, a, cursor, dirtyBeg, width);
    ghost var one := Pos(column, |lines| - 1);
    if dirtyBeg > 0 {
      clean, cleanColumn := lines, column;
    }
    ghost var lines1 := lines;
    lines, column, at := Segment(lines, column, at, buffer, a, b, cursor, dirtyBeg, width);
    if a < dirtyBeg {
      clean, cleanColumn := lines, column;
    } else if dirtyBeg > 0 {
      NotDirtied(clean);
    } else {
      DirtiedOn(clean, lines1, lines);
    }
    ghost var two, lines2 := Pos(column, |lines| - 1), lines;
    lines, column, at := Segment(lines, column, at, buffer, b, |buffer|, cursor, dirtyBeg, width);
    if a < dirtyBeg {
      NotDirtied(clean);
    }
    DirtiedOn(clean, lines2, lines);
    if at.x >= width {
      at := Pos(0, at.y + 1);
      if cursor == |buffer| {
        LineBegun(lines);
        OneMoreLine(clean, lines);
        lines := lines + [NEW_LINE];
      }
    }
    DirtyAfter(clean, cleanColumn, lines);
  }

  lemma OneMoreLine(clean: seq<Line>, lines: seq<Line>)
    requires Dirtied(clean, lines)
    ensures Dirtied(clean, lines + [NEW_LINE])
  {
  }

  /** How many lines there are: those the three segments take, and one more for a cursor behind a full last line. */
  ghost function LineCount(buffer: seq<Glyph>, cursor: nat, dirtyBeg: nat, originX: int, width: int): nat
    requires cursor <= |buffer| && dirtyBeg <= |buffer| && 0 <= originX && CanFlow(buffer, width)
  {
    var a, b := Min(dirtyBeg, cursor), Max(dirtyBeg, cursor);
    FlowParts(buffer, width, a, b);
    var end := Walk(buffer[b..|buffer|], width, Walk(buffer[a..b], width, Walk(buffer[0..a], width, Pos(originX, 0))));
    end.y + if cursor == |buffer| && end.x >= width then 2 else 1
  }

  /** Where the text in front of the dirty mark ends; it is laid out in two parts if the cursor lies inside. */
  ghost function CleanEnd(buffer: seq<Glyph>, cursor: nat, dirtyBeg: nat, originX: int, width: int): Pos
    requires cursor <= |buffer| && dirtyBeg <= |buffer| && 0 <= originX && CanFlow(buffer, width)
  {
    FlowParts(buffer, width, Min(dirtyBeg, cursor), Max(dirtyBeg, cursor));
    if dirtyBeg <= cursor then Walk(buffer[0..dirtyBeg], width, Pos(originX, 0))
    else Walk(buffer[cursor..dirtyBeg], width, Walk(buffer[0..cursor], width, Pos(originX, 0)))
  }

  ghost function CleanVisible(buffer: seq<Glyph>, cursor: nat, dirtyBeg: nat, originX: int, width: int): seq<Glyph>
    requires cursor <= |buffer| && dirtyBeg <= |buffer| && 0 <= originX && CanFlow(buffer, width)
  {
    FlowParts(buffer, width, Min(dirtyBeg, cursor), Max(dirtyBeg, cursor));
    if dirtyBeg <= cursor then Visible(buffer[0..dirtyBeg], width, Pos(originX, 0))
    else Visible(buffer[0..cursor], width, Pos(originX, 0)) +
         Visible(buffer[cursor..dirtyBeg], width, Walk(buffer[0..cursor], width, Pos(originX, 0)))
  }

  lemma FirstLine(line: Line)
    requires line.text == []
    ensures ShownLines([line]) == [] && (line.dirtyBegOffset == 0 && line.dirtyBegColumn == line.columns ==> AllClean([line]))
  {
    assert [line][..0] == [];
  }

  lemma WalkNothing(width: int, at: Pos)
    requires CanFlow([], width) && 0 <= at.x
    ensures Walk([], width, at) == at && Visible([], width, at) == []
  {
  }

  /** Where the cursor has been found to be: on an existing line, and, if that line is full and the text goes on, with
      another line after it. Before the cursor's segment is done, it is still at the origin. */
  ghost predicate CursorKnown(lines: seq<Line>, column: int, at: Pos, width: int, cursor: nat, done: nat) {
    && 0 <= at.x && 0 <= at.y < |lines|
    && (cursor == done ==> at == Pos(column, |lines| - 1))
    && (cursor < done && at.x >= width ==> at.y + 1 < |lines|)
  }

  /** One segment. If it ends at the cursor, that is where the cursor is. */
  method Segment(lines0: seq<Line>, column0: int, at0: Pos, buffer: seq<Glyph>, from: nat, to: nat,
                 cursor: nat, dirtyBeg: nat, width: int)
    returns (lines: seq<Line>, column: int, at: Pos)
    requires from <= to <= |buffer| && CanFlow(buffer[from..to], width) && Laid(lines0, column0)
    requires cursor <= from || to <= cursor
    requires CursorKnown(lines0, column0, at0, width, cursor, from)
    ensures Laid(lines, column)
    ensures Pos(column, |lines| - 1) == Walk(buffer[from..to], width, Pos(column0, |lines0| - 1))
    ensures ShownLines(lines) == ShownLines(lines0) + Visible(buffer[from..to], width, Pos(column0, |lines0| - 1))
    ensures at == if from < to && to == cursor then Pos(column, |lines| - 1) else at0
    ensures CursorKnown(lines, column, at, width, cursor, to)
    ensures from < dirtyBeg && AllClean(lines0) ==> AllClean(lines)
    ensures from >= dirtyBeg ==> Dirtied(lines0, lines)
  {
    at := at0;
    lines, column := LayoutSegment(lines0, column0, buffer[from..to], width, from >= dirtyBeg);
    if from < to && to == cursor {
      at := Pos(column, |lines| - 1);
    }
    assert from == to ==> buffer[from..to] == [];
  }

  lemma FlowParts(buffer: seq<Glyph>, width: int, a: nat, b: nat)
    requires CanFlow(buffer, width) && a <= b <= |buffer|
    ensures CanFlow(buffer[0..a], width) && CanFlow(buffer[a..b], width) && CanFlow(buffer[b..|buffer|], width)
  {
  }

  ghost function Clamp(v: int, lo: int, hi: int): int {
    Max(lo, Min(v, hi))
  }

  /** The first content row to show: scroll no further than needed to have the cursor's row on screen. */
  ghost function ContentTop(previous: int, cursorRow: int, lineCount: int, height: int): int {
    Clamp(Max(Min(previous, cursorRow), cursorRow - height + 1), 0, lineCount - Min(lineCount, height))
  }

  /** The pager arithmetic: an existing row ends up among the rows shown. */
  lemma RowIsShown(previous: int, cursorRow: int, lineCount: int, height: int)
    requires 0 <= cursorRow < lineCount && 0 < height
    ensures var top := ContentTop(previous, cursorRow, lineCount, height);
            0 <= top && top + Min(lineCount, height) <= lineCount && 0 <= cursorRow - top < Min(lineCount, height)
    ensures 0 <= previous <= lineCount - Min(lineCount, height) && 0 <= cursorRow - previous < Min(lineCount, height) ==>
              ContentTop(previous, cursorRow, lineCount, height) == previous
  {
  }

  /** And the content is scrolled no further than that takes: any other position that shows the row is at least as far
      from the previous one. */
  lemma LeastScroll(previous: int, cursorRow: int, lineCount: int, height: int, top: int)
    requires 0 <= cursorRow < lineCount && 0 < height
    requires 0 <= top && top + Min(lineCount, height) <= lineCount && top <= cursorRow < top + Min(lineCount, height)
    ensures Abs(ContentTop(previous, cursorRow, lineCount, height) - previous) <= Abs(top - previous)
  {
  }

  class CookedReadData {
    var buffer: seq<Glyph>
    var cursor: nat
    var dirtyBeg: nat
    var dirty: bool
    var origin: Pos
    var contentTop: int
    var pagerHeight: int

    ghost predicate Valid()
      reads this
    {
      cursor <= |buffer| && dirtyBeg <= |buffer| && 0 <= origin.x && 0 <= origin.y
    }

    constructor (origin: Pos)
      requires 0 <= origin.x && 0 <= origin.y
      ensures Valid() && buffer == [] && cursor == 0 && dirtyBeg == 0 && !dirty && this.origin == origin && contentTop == 0
    {
      buffer, cursor, dirtyBeg, dirty := [], 0, 0, false;
      this.origin, contentTop, pagerHeight := origin, 0, 0;
    }

    /** Replace a part of the buffer; whatever offsets are asked for, cursor and dirty mark stay inside it. */
    method Replace(offset0: nat, remove0: nat, input: seq<Glyph>)
      requires Valid()
      modifies this`buffer, this`cursor, this`dirtyBeg, this`dirty
      ensures Valid()
      ensures var o := Min(offset0, |old(buffer)|);
              var r := Min(remove0, |old(buffer)| - o);
              && buffer == old(buffer)[..o] + input + old(buffer)[o + r..]
              && (r > 0 || input != [] ==> cursor == o + |input| && dirtyBeg == Min(old(dirtyBeg), o) && dirty)
              && (r == 0 && input == [] ==> cursor == old(cursor) && dirtyBeg == old(dirtyBeg) && dirty == old(dirty))
    {
      var offset := Min(offset0, |buffer|);
      var remove := Min(remove0, |buffer| - offset);
      if remove == 0 && input == [] {
        assert buffer == buffer[..offset] + [] + buffer[offset + 0..];
        return;
      }
      buffer := buffer[..offset] + input + buffer[offset + remove..];
      cursor := offset + |input|;
      dirtyBeg := Min(dirtyBeg, offset);
      dirty := true;
    }

    method SetCursorPosition(position: nat)
      requires Valid()
      modifies this`cursor, this`dirty
      ensures Valid() && cursor == Min(position, |buffer|) && dirty
    {
      cursor := Min(position, |buffer|);
      dirty := true;
    }

    /** `_redisplay` without popups, laying out a second time (`again`) if the prompt outgrows the viewport. Whenever it
        draws, the cursor ends up inside the viewport, and so does all of the pager; otherwise nothing changes. */
    method Redisplay(width: int, height: int, echo: bool)
      returns (drawn: bool, shown: Pos, lines: seq<Line>, ghost again: bool, ghost from: nat, ghost x: nat)
      requires Valid() && CanFlow(buffer, width) && 0 < height
      modifies this
      ensures Valid() && buffer == old(buffer) && cursor == old(cursor)
      ensures drawn <==> old(dirty) && echo
      ensures !drawn ==> unchanged(this)
      ensures from <= |buffer| && from == (if again then 0 else old(dirtyBeg)) && x == (if again then 0 else old(origin.x))
      ensures drawn ==> (again <==> old(origin.x) != 0 && old(LineCount(buffer, cursor, dirtyBeg, origin.x, width)) > height)
      ensures drawn ==> Displayed(buffer, cursor, from, x, width, lines)
      ensures drawn ==> 0 <= shown.x < width && 0 <= shown.y < height
      ensures drawn ==>
                var at := CursorAt(buffer, cursor, from, x, width);
                && shown == Pos(at.x, at.y + origin.y - contentTop)
                && contentTop == ContentTop(old(contentTop), at.y, |lines|, height)
      ensures drawn ==> origin == Pos(x, Min(if again then 0 else old(origin.y), height - pagerHeight))
      ensures drawn ==> 0 < pagerHeight == Min(|lines|, height)
      ensures drawn ==> 0 <= contentTop && contentTop + pagerHeight <= |lines|
      ensures drawn ==> 0 <= origin.y <= shown.y < origin.y + pagerHeight <= height
      ensures drawn && |lines| > height ==> origin == Pos(0, 0)
      ensures drawn ==> !dirty && dirtyBeg == |buffer|
    {
      hide CanFlow, Displayed, CursorAt, LineCount, ContentTop;
      again, from, x := false, dirtyBeg, origin.x;
      if !dirty || !echo {
        return false, Pos(0, 0), [], again, from, x;
      }
      var at, start;
      lines, at, start, again, from, x := Arrange(buffer, cursor, dirtyBeg, origin, width, height);
      shown, contentTop, pagerHeight, origin := Page(at, |lines|, start, contentTop, height);
      drawn, dirtyBeg, dirty := true, |buffer|, false;
    }
  }

  /** What is on the lines: as many as it takes, showing what the segments show, and dirty from the mark on. */
  ghost predicate Displayed(buffer: seq<Glyph>, cursor: nat, from: nat, x: int, width: int, lines: seq<Line>)
    requires cursor <= |buffer| && from <= |buffer| && 0 <= x && CanFlow(buffer, width)
  {
    && |lines| == LineCount(buffer, cursor, from, x, width)
    && ShownLines(lines) == VisibleBuffer(buffer, cursor, from, x, width)
    && DirtyFrom(lines, CleanEnd(buffer, cursor, from, x, width))
    && CleanShown(lines) == CleanVisible(buffer, cursor, from, x, width)
  }

  /** Lay the buffer out, once more from the left edge if it outgrows the viewport. */
  method Arrange(buffer: seq<Glyph>, cursor: nat, dirtyBeg: nat, origin: Pos, width: int, height: int)
    returns (lines: seq<Line>, at: Pos, start: Pos, ghost again: bool, ghost from: nat, ghost x: nat)
    requires cursor <= |buffer| && dirtyBeg <= |buffer| && 0 <= origin.x && 0 <= origin.y && CanFlow(buffer, width)
    requires 0 < height
    ensures again <==> origin.x != 0 && LineCount(buffer, cursor, dirtyBeg, origin.x, width) > height
    ensures start == (if again then Pos(0, 0) else origin)
    ensures from == (if again then 0 else dirtyBeg) && x == (if again then 0 else origin.x)
    ensures Displayed(buffer, cursor, from, x, width, lines) && at == CursorAt(buffer, cursor, from, x, width)
    ensures 0 <= at.x < width && 0 <= at.y < |lines| && (|lines| > height ==> start.x == 0)
  {
    hide CanFlow, VisibleBuffer, ShownLines, CursorAt, LineCount, DirtyFrom, CleanShown, CleanVisible, CleanEnd;
    start, again, from, x := origin, false, dirtyBeg, origin.x;
    lines, at := LayoutBuffer(buffer, cursor, dirtyBeg, origin.x, width);
    if |lines| > height && start.x != 0 {
      start, again, from, x := Pos(0, 0), true, 0, 0;
      lines, at := LayoutBuffer(buffer, cursor, 0, 0, width);
    }
  }

  /** The pager: move the origin up as far as needed, scroll as little as needed, and put the cursor on the screen. */
  method Page(at: Pos, lineCount: nat, start: Pos, previous: int, height: int)
    returns (shown: Pos, top: int, pagerHeight: int, origin: Pos)
    requires 0 <= at.y < lineCount && 0 < height && 0 <= start.y && (lineCount > height ==> start.x == 0)
    ensures top == ContentTop(previous, at.y, lineCount, height) && shown == Pos(at.x, at.y + origin.y - top)
    ensures 0 < pagerHeight == Min(lineCount, height) && 0 <= top && top + pagerHeight <= lineCount
    ensures origin.x == start.x && origin.y == Min(start.y, height - pagerHeight) && 0 <= origin.y
    ensures origin.y <= shown.y < origin.y + pagerHeight <= height
    ensures lineCount > height ==> origin == Pos(0, 0)
  {
    pagerHeight := Min(lineCount, height);
    origin := Pos(start.x, Min(start.y, height - pagerHeight));
    RowIsShown(previous, at.y, lineCount, height);
    top := Min(previous, at.y);
    top := Max(top, at.y - height + 1);
    top := Max(0, Min(top, lineCount - pagerHeight));
    shown := Pos(at.x, at.y + origin.y - top);
  }
}
