/** Line layout of the cooked-read editor: how much of a text goes onto one row, with tab stops, `^X` for control
    characters, and wide glyphs that wrap when they do not fit. */
module CookedLayout {
  import opened Numbers

  /** A grapheme of one or two columns, a tab, or another control character. */
  datatype Glyph = Narrow(ch: int) | Wide(ch: int) | Tab | Ctrl(code: int) {
    predicate Plain() {
      Narrow? || Wide?
    }

    function Columns(): nat {
      if Wide? then 2 else 1
    }
  }

  /** What is written to the row. */
  datatype Mark = Show(g: Glyph) | Blank | Sign(ch: int)

  datatype Row = Row(consumed: nat, column: int, out: seq<Mark>)

  function Blanks(n: int): (marks: seq<Mark>)
    ensures |marks| == Max(0, n) && forall i :: 0 <= i < |marks| ==> marks[i] == Blank
  {
    if n <= 0 then [] else [Blank] + Blanks(n - 1)
  }

  function Shows(text: seq<Glyph>): (marks: seq<Mark>)
    ensures |marks| == |text| && forall i :: 0 <= i < |marks| ==> marks[i] == Show(text[i])
  {
    if text == [] then [] else [Show(text[0])] + Shows(text[1..])
  }

  /** From a column to the next tab stop, or to the edge. */
  ghost function TabWidth(column: int, limit: int): (n: int)
    requires 0 <= column < limit
    ensures 0 < n && column + n <= limit && ((column + n) % 8 == 0 || column + n == limit)
  {
    Min(8 - column % 8, limit - column)
  }

  /** There is no tab stop before the one a tab leads to. */
  lemma NoStopBetween(column: int, limit: int, m: int)
    requires 0 <= column < limit && column < m < column + TabWidth(column, limit)
    ensures m % 8 != 0
  {
  }

  /** `r`, after `n` glyphs that wrote `out`. */
  ghost function After(n: nat, out: seq<Mark>, r: Row): Row {
    Row(n + r.consumed, r.column, out + r.out)
  }

  /** The row, glyph by glyph. A wide glyph that does not fit ends the row; but when it is the first glyph of a plain
      run (`first`) it is skipped without a trace and the row is not even marked as full. */
  ghost function Layout(text: seq<Glyph>, column: int, limit: int, first: bool): Row
    requires 0 <= column <= limit
  {
    if text == [] || column == limit then Row(0, column, [])
    else
      match text[0]
      case Narrow(_) => After(1, [Show(text[0])], Layout(text[1..], column + 1, limit, false))
      case Wide(_) =>
        if column + 2 <= limit then After(1, [Show(text[0])], Layout(text[1..], column + 2, limit, false))
        else if first then Row(1, column, [])
        else Row(0, limit, [])
      case Tab =>
        var n := TabWidth(column, limit);
        After(1, Blanks(n), Layout(text[1..], column + n, limit, true))
      case Ctrl(code) =>
        if column + 2 > limit then Row(0, limit, Blanks(limit - column))
        else After(1, [Sign(0x5e), Sign(code + 0x40)], Layout(text[1..], column + 2, limit, true))
  }

  /** `FitTextIntoColumns`: how many glyphs of a plain text fit, and the columns counted when it stopped. */
  function Fit(text: seq<Glyph>, limit: int): (r: (nat, int))
    ensures r.0 <= |text|
    ensures 0 <= r.1 && (r.0 == |text| && limit >= 0 ==> r.1 <= limit)
  {
    if text == [] then (0, 0)
    else if text[0].Columns() > limit then (0, text[0].Columns())
    else
      var later := Fit(text[1..], limit - text[0].Columns());
      (1 + later.0, text[0].Columns() + later.1)
  }

  // ---------------------------------------------------------------------------------------
  // The run-by-run implementation
  // ---------------------------------------------------------------------------------------

  /** The first position from `i` on whose glyph is (or is not) plain. */
  method Find(text: seq<Glyph>, i: nat, plain: bool) returns (n: nat)
    requires i <= |text|
    ensures i <= n <= |text|
    ensures forall k :: i <= k < n ==> text[k].Plain() != plain
    ensures n < |text| ==> text[n].Plain() == plain
  {
    n := i;
    while n < |text| && text[n].Plain() != plain
      invariant i <= n <= |text|
      invariant forall k :: i <= k < n ==> text[k].Plain() != plain
    {
      n := n + 1;
    }
  }

  ghost predicate AllPlain(text: seq<Glyph>) {
    forall i :: 0 <= i < |text| ==> text[i].Plain()
  }

  /** The row of a text that starts with a plain run, in terms of how much of the run fits. */
  ghost function RunRow(run: seq<Glyph>, rest: seq<Glyph>, column: int, limit: int, first: bool): Row
    requires 0 <= column <= limit
  {
    var fit := Fit(run, limit - column);
    if fit.0 == |run| then After(|run|, Shows(run), Layout(rest, column + fit.1, limit, true))
    else if fit.0 > 0 then Row(fit.0, limit, Shows(run[..fit.0]))
    else if first then Row(1, column, [])
    else Row(0, limit, [])
  }

  lemma {:induction false} RunLayout(run: seq<Glyph>, rest: seq<Glyph>, column: int, limit: int, first: bool)
    requires AllPlain(run) && 0 <= column < limit && run != []
    requires rest == [] || !rest[0].Plain()
    ensures Layout(run + rest, column, limit, first) == RunRow(run, rest, column, limit, first)
    decreases |run|
  {
    hide RunRow;
    var w := run[0].Columns();
    assert (run + rest)[0] == run[0] && (run + rest)[1..] == run[1..] + rest;
    if w > limit - column {
      RunRowNone(run, rest, column, limit, first);
    } else if |run| == 1 {
      assert run[1..] + rest == rest;
      FirstIrrelevant(rest, column + w, limit);
      RunRowOne(run, rest, column, limit, first);
    } else if column + w == limit {
      RunRowFull(run, rest, column, limit, first);
    } else {
      RunLayout(run[1..], rest, column + w, limit, false);
      RunRowNext(run, rest, column, limit, first);
    }
  }

  lemma RunRowNone(run: seq<Glyph>, rest: seq<Glyph>, column: int, limit: int, first: bool)
    requires 0 <= column < limit && run != [] && run[0].Columns() > limit - column
    ensures RunRow(run, rest, column, limit, first) == if first then Row(1, column, []) else Row(0, limit, [])
  {
  }

  lemma ShowsOne(g: Glyph)
    ensures Shows([g]) == [Show(g)]
  {
    assert [g][1..] == [];
  }

  lemma RunRowOne(run: seq<Glyph>, rest: seq<Glyph>, column: int, limit: int, first: bool)
    requires 0 <= column < limit && |run| == 1 && run[0].Columns() <= limit - column
    ensures RunRow(run, rest, column, limit, first)
         == After(1, [Show(run[0])], Layout(rest, column + run[0].Columns(), limit, true))
  {
    hide Layout;
    ShowsOne(run[0]);
    assert run == [run[0]] && run[1..] == [];
    assert Fit(run, limit - column) == (1, run[0].Columns());
  }

  lemma RunRowFull(run: seq<Glyph>, rest: seq<Glyph>, column: int, limit: int, first: bool)
    requires 0 <= column < limit && |run| > 1 && run[0].Columns() == limit - column
    ensures RunRow(run, rest, column, limit, first) == Row(1, limit, [Show(run[0])])
  {
    hide Layout;
    assert Fit(run[1..], 0).0 == 0;
    assert run[..1] == [run[0]];
    ShowsOne(run[0]);
  }

  lemma RunRowNext(run: seq<Glyph>, rest: seq<Glyph>, column: int, limit: int, first: bool)
    requires 0 <= column < limit && |run| > 1 && run[0].Columns() < limit - column
    ensures RunRow(run, rest, column, limit, first)
         == After(1, [Show(run[0])], RunRow(run[1..], rest, column + run[0].Columns(), limit, false))
  {
    hide Layout;
    var n := Fit(run[1..], limit - column - run[0].Columns()).0;
    assert run[..1 + n][1..] == run[1..][..n];
    if n == 0 {
      assert run[..1] == [run[0]];
      ShowsOne(run[0]);
    }
  }

  lemma FirstIrrelevant(rest: seq<Glyph>, column: int, limit: int)
    requires 0 <= column <= limit && (rest == [] || !rest[0].Plain())
    ensures Layout(rest, column, limit, false) == Layout(rest, column, limit, true)
  {
  }

  /** `_layoutLine`: runs of plain text are measured at once, control characters one by one. The result is the row
      that laying out glyph by glyph gives. */
  method LayoutLine(output0: seq<Mark>, input: seq<Glyph>, offset: nat, columnBegin: int, limit: int)
    returns (output: seq<Mark>, next: nat, column: int)
    requires 0 <= columnBegin && 0 <= limit
    ensures var start, begin := Min(offset, |input|), Min(columnBegin, limit);
            var row := Layout(input[start..], begin, limit, true);
            output == output0 + row.out && next == start + row.consumed && column == row.column
    ensures next <= |input|
  {
    hide Layout, After;
    var it := Min(offset, |input|);
    column := Min(columnBegin, limit);
    output := output0;
    ghost var start, begin := it, column;
    ghost var whole := Layout(input[start..], begin, limit, true);
    ghost var done: seq<Mark> := [];
    var more := true;
    assert whole == After(0, done, whole) by {
      AfterZero(whole);
    }
    while more && it != |input| && column < limit
      invariant start <= it <= |input| && 0 <= column <= limit && output == output0 + done
      invariant whole == if more then After(it - start, done, Layout(input[it..], column, limit, true))
                         else Row(it - start, column, done)
      decreases more, |input| - it
    {
      ghost var n := it - start;
      var nextControl := Find(input, it, false);
      if it != nextControl {
        var marks;
        ghost var at := it;
        marks, it, column, more := PlainRun(input, it, nextControl, column, limit);
        Extend(output0, done, marks, n, it - at, Layout(input[it..], column, limit, true), column);
        output, done, n := output + marks, done + marks, n + (it - at);
      }
      if more {
        var marks;
        ghost var at := it;
        var nextPlain := Find(input, it, true);
        marks, it, column, more := ControlRun(input, it, nextPlain, column, limit);
        Extend(output0, done, marks, n, it - at, Layout(input[it..], column, limit, true), column);
        output, done := output + marks, done + marks;
      }
    }
    if more {
      RowEnds(input[it..], column, limit);
      AfterNothing(it - start, done, column);
    }
    next := it;
  }

  /** Rows written piece by piece. */
  lemma Extend(output0: seq<Mark>, done: seq<Mark>, marks: seq<Mark>, n: nat, m: nat, r: Row, column: int)
    ensures (output0 + done) + marks == output0 + (done + marks)
    ensures After(n, done, After(m, marks, r)) == After(n + m, done + marks, r)
    ensures After(n, done, Row(m, column, marks)) == Row(n + m, column, done + marks)
  {
    assert done + (marks + r.out) == (done + marks) + r.out;
  }

  lemma AfterZero(r: Row)
    ensures After(0, [], r) == r
  {
  }

  lemma AfterNothing(n: nat, out: seq<Mark>, column: int)
    ensures After(n, out, Row(0, column, [])) == Row(n, column, out)
  {
  }

  /** A run of plain text, up to `end`; `more` says that all of it was placed and there is room left. */
  method PlainRun(input: seq<Glyph>, it0: nat, end: nat, column0: int, limit: int)
    returns (out: seq<Mark>, it: nat, column: int, more: bool)
    requires it0 < end <= |input| && 0 <= column0 < limit
    requires forall k :: it0 <= k < end ==> input[k].Plain()
    requires end < |input| ==> !input[end].Plain()
    ensures it0 <= it <= end && 0 <= column <= limit && (more ==> it == end && column < limit)
    ensures Layout(input[it0..], column0, limit, true) ==
            if more then After(it - it0, out, Layout(input[it..], column, limit, true)) else Row(it - it0, column, out)
  {
    hide Layout, Fit, Shows;
    out, it, column, more := [], it0, column0, false;
    var text := input[it..end];
    RunRows(input, it, end, column, limit);
    var fit := Fit(text, limit - column);
    if fit.0 == 0 {
      it := it + 1;
      return;
    }
    out, column, it := Shows(text[..fit.0]), column + fit.1, it + fit.0;
    if it != end {
      column := limit;
      return;
    }
    assert text[..fit.0] == text;
    if column >= limit {
      RowEnds(input[it..], column, limit);
      return;
    }
    more := true;
  }

  /** A run of control characters, up to `end`; `more` says that there is room left after all of them. */
  method ControlRun(input: seq<Glyph>, it0: nat, end: nat, column0: int, limit: int)
    returns (out: seq<Mark>, it: nat, column: int, more: bool)
    requires it0 <= end <= |input| && 0 <= column0 < limit
    requires forall k :: it0 <= k < end ==> !input[k].Plain()
    ensures it0 <= it <= end && 0 <= column <= limit && (more ==> it == end && column < limit)
    ensures Layout(input[it0..], column0, limit, true) ==
            if more then After(it - it0, out, Layout(input[it..], column, limit, true)) else Row(it - it0, column, out)
  {
    hide Layout, Blanks;
    out, it, column, more := [], it0, column0, true;
    while it != end
      invariant it0 <= it <= end && 0 <= column < limit && more
      invariant Layout(input[it0..], column0, limit, true) == After(it - it0, out, Layout(input[it..], column, limit, true))
    {
      ControlRow(input, it, column, limit);
      var marks, len := [], 0;
      if input[it].Tab? {
        len := Min(8 - column % 8, limit - column);
        marks := Blanks(len);
      } else {
        len := 2;
        marks := [Sign(0x5e), Sign(input[it].code + 0x40)];
      }
      if column + len > limit {
        out, column, more := out + Blanks(limit - column), limit, false;
        return;
      }
      out, column, it := out + marks, column + len, it + 1;
      if column >= limit {
        RowEnds(input[it..], column, limit);
        more := false;
        return;
      }
    }
  }

  lemma RowEnds(text: seq<Glyph>, column: int, limit: int)
    requires 0 <= column <= limit && (text == [] || column == limit)
    ensures Layout(text, column, limit, true) == Row(0, column, [])
  {
  }

  lemma RunRows(input: seq<Glyph>, it: nat, end: nat, column: int, limit: int)
    requires it < end <= |input| && 0 <= column < limit
    requires forall k :: it <= k < end ==> input[k].Plain()
    requires end < |input| ==> !input[end].Plain()
    ensures var run, fit := input[it..end], Fit(input[it..end], limit - column);
            Layout(input[it..], column, limit, true) ==
            if fit.0 == |run| then After(|run|, Shows(run), Layout(input[end..], column + fit.1, limit, true))
            else if fit.0 > 0 then Row(fit.0, limit, Shows(run[..fit.0]))
            else Row(1, column, [])
  {
    assert input[it..] == input[it..end] + input[end..];
    RunLayout(input[it..end], input[end..], column, limit, true);
  }

  lemma ControlRow(input: seq<Glyph>, it: nat, column: int, limit: int)
    requires it < |input| && !input[it].Plain() && 0 <= column < limit
    ensures var g := input[it];
            Layout(input[it..], column, limit, true) ==
            if g.Tab? then
              After(1, Blanks(TabWidth(column, limit)), Layout(input[it + 1..], column + TabWidth(column, limit), limit, true))
            else if column + 2 > limit then Row(0, limit, Blanks(limit - column))
            else After(1, [Sign(0x5e), Sign(g.code + 0x40)], Layout(input[it + 1..], column + 2, limit, true))
  {
    assert input[it..][1..] == input[it + 1..];
  }

  // ---------------------------------------------------------------------------------------
  // Laws of rows
  // ---------------------------------------------------------------------------------------

  /** A tab in front: blanks up to the next multiple of eight, or to the edge if that comes first, and then the rest. */
  lemma TabLeadsTo(text: seq<Glyph>, column: int, limit: int, first: bool, m: int) returns (c: int, blanks: seq<Mark>)
    requires text != [] && text[0].Tab? && 0 <= column < limit
    ensures column < c <= limit && (c % 8 == 0 || c == limit) && (column < m < c ==> m % 8 != 0)
    ensures |blanks| == c - column && forall i :: 0 <= i < |blanks| ==> blanks[i] == Blank
    ensures Layout(text, column, limit, first) == After(1, blanks, Layout(text[1..], c, limit, true))
  {
    var n := TabWidth(column, limit);
    if column < m < column + n {
      NoStopBetween(column, limit, m);
    }
    return column + n, Blanks(n);
  }

  /** Any other control character in front: a caret and a letter if both fit, else the row is filled with blanks and the
      character is left for the next. */
  lemma ControlWrites(text: seq<Glyph>, column: int, limit: int, first: bool)
    requires text != [] && text[0].Ctrl? && 0 <= column < limit
    ensures column + 2 <= limit ==>
              Layout(text, column, limit, first) ==
              After(1, [Sign('^' as int), Sign(text[0].code + '@' as int)], Layout(text[1..], column + 2, limit, true))
    ensures column + 1 == limit ==> Layout(text, column, limit, first) == Row(0, limit, [Blank])
  {
    if column + 1 == limit {
      assert Blanks(1) == [Blank] + Blanks(0);
    }
  }

  /** A row never runs over, never goes back, and either takes something from the text or is full. */
  lemma {:induction false} RowBounds(text: seq<Glyph>, column: int, limit: int, first: bool)
    requires 0 <= column <= limit
    ensures var r := Layout(text, column, limit, first);
            && r.consumed <= |text| && column <= r.column <= limit
            && (text != [] ==> r.consumed > 0 || r.column == limit)
    decreases |text|
  {
    if text != [] && column < limit {
      var g := text[0];
      if g.Narrow? {
        RowBounds(text[1..], column + 1, limit, false);
      } else if g.Wide? && column + 2 <= limit {
        RowBounds(text[1..], column + 2, limit, false);
      } else if g.Tab? {
        RowBounds(text[1..], column + TabWidth(column, limit), limit, true);
      } else if g.Ctrl? && column + 2 <= limit {
        RowBounds(text[1..], column + 2, limit, true);
      }
    }
  }

  ghost predicate NoCtrl(text: seq<Glyph>) {
    forall i :: 0 <= i < |text| ==> !text[i].Ctrl?
  }

  /** What every layout loop needs in order to end. */
  ghost predicate CanFlow(text: seq<Glyph>, width: int) {
    width >= 2 || (width == 1 && NoCtrl(text))
  }

  /** A row that starts at the left edge takes something from the text. */
  lemma EdgeConsumes(text: seq<Glyph>, width: int)
    requires text != [] && CanFlow(text, width)
    ensures Layout(text, 0, width, true).consumed > 0
  {
    assert width == 1 ==> !text[0].Ctrl?;
  }

  /** The visible part of a row and of a text: glyphs that are shown as themselves. */
  ghost function Shown(out: seq<Mark>): seq<Glyph> {
    if out == [] then [] else (if out[0].Show? then [out[0].g] else []) + Shown(out[1..])
  }

  ghost function PlainOf(text: seq<Glyph>): seq<Glyph> {
    if text == [] then [] else (if text[0].Plain() then [text[0]] else []) + PlainOf(text[1..])
  }

  /** The row meets a wide glyph first in its run with exactly one column left. */
  ghost predicate Drops(text: seq<Glyph>, column: int, limit: int, first: bool)
    requires 0 <= column <= limit
  {
    if text == [] || column == limit then false
    else
      match text[0]
      case Narrow(_) => Drops(text[1..], column + 1, limit, false)
      case Wide(_) => if column + 2 <= limit then Drops(text[1..], column + 2, limit, false) else first
      case Tab => Drops(text[1..], column + TabWidth(column, limit), limit, true)
      case Ctrl(_) => column + 2 <= limit && Drops(text[1..], column + 2, limit, true)
  }

  lemma {:induction false} ShownConcat(a: seq<Mark>, b: seq<Mark>)
    ensures Shown(a + b) == Shown(a) + Shown(b)
  {
    hide Shown;
    if a == [] {
      assert a + b == b;
      NothingShown();
    } else {
      assert (a + b)[1..] == a[1..] + b;
      ShownConcat(a[1..], b);
      ShownStep(a);
      ShownStep(a + b);
    }
  }

  lemma ShownStep(out: seq<Mark>)
    requires out != []
    ensures Shown(out) == (if out[0].Show? then [out[0].g] else []) + Shown(out[1..])
  {
  }

  lemma {:induction false} BlanksShowNothing(n: int)
    ensures Shown(Blanks(n)) == []
  {
    if n > 0 {
      BlanksShowNothing(n - 1);
      assert Blanks(n)[1..] == Blanks(n - 1);
    }
  }

  lemma CaretsShowNothing(code: int)
    ensures Shown([Sign(0x5e), Sign(code + 0x40)]) == []
  {
    var two, one := [Sign(0x5e), Sign(code + 0x40)], [Sign(code + 0x40)];
    assert two[1..] == one && one[1..] == [];
    assert Shown(one) == [] + Shown([]);
  }

  /** A row shows all the plain glyphs it takes, in order, exactly when it does not meet a wide glyph that way; if it
      does, the last glyph it takes is lost. */
  lemma {:induction false} RowShowsAll(text: seq<Glyph>, column: int, limit: int, first: bool)
    requires 0 <= column <= limit
    ensures var r := Layout(text, column, limit, first);
            && r.consumed <= |text|
            && (Drops(text, column, limit, first) ==>
                  r.consumed > 0 && text[r.consumed - 1].Wide? && Shown(r.out) == PlainOf(text[..r.consumed - 1]))
            && (!Drops(text, column, limit, first) ==> Shown(r.out) == PlainOf(text[..r.consumed]))
    decreases |text|
  {
    hide Shown, PlainOf, Blanks;
    NothingShown();
    assert text[..0] == [];
    if text == [] || column == limit {
    } else if text[0].Narrow? || (text[0].Wide? && column + 2 <= limit) {
      var w := text[0].Columns();
      RowShowsAll(text[1..], column + w, limit, false);
      OneShown(text[0]);
      Stepped(text, [Show(text[0])], Layout(text[1..], column + w, limit, false), Drops(text[1..], column + w, limit, false));
    } else if text[0].Tab? {
      var n := TabWidth(column, limit);
      RowShowsAll(text[1..], column + n, limit, true);
      BlanksShowNothing(n);
      Stepped(text, Blanks(n), Layout(text[1..], column + n, limit, true), Drops(text[1..], column + n, limit, true));
    } else if text[0].Ctrl? && column + 2 <= limit {
      var marks := [Sign(0x5e), Sign(text[0].code + 0x40)];
      RowShowsAll(text[1..], column + 2, limit, true);
      CaretsShowNothing(text[0].code);
      Stepped(text, marks, Layout(text[1..], column + 2, limit, true), Drops(text[1..], column + 2, limit, true));
    } else {
      BlanksShowNothing(limit - column);
    }
  }

  /** A tab that leaves one column takes the wide glyph behind it off the screen: it is consumed and shown nowhere. */
  lemma WideGlyphIsLost(ch: int)
    ensures var text := [Tab, Wide(ch)];
            && Drops(text, 0, 9, true)
            && Layout(text, 0, 9, true).consumed == 2 && Shown(Layout(text, 0, 9, true).out) == []
            && PlainOf(text) == [Wide(ch)]
  {
    hide Shown, PlainOf, Blanks;
    var text := [Tab, Wide(ch)];
    assert text[1..] == [Wide(ch)] && TabWidth(0, 9) == 8;
    assert Layout(text[1..], 8, 9, true) == Row(1, 8, []);
    assert Drops(text[1..], 8, 9, true);
    RowShowsAll(text, 0, 9, true);
    assert text[..1] == [Tab] && [Tab][1..] == [] && [Wide(ch)][1..] == [];
    NothingShown();
    PlainStep([Tab]);
    PlainStep(text);
    PlainStep([Wide(ch)]);
  }

  lemma PlainStep(text: seq<Glyph>)
    requires text != []
    ensures PlainOf(text) == (if text[0].Plain() then [text[0]] else []) + PlainOf(text[1..])
  {
  }

  lemma {:induction false} PlainConcat(a: seq<Glyph>, b: seq<Glyph>)
    ensures PlainOf(a + b) == PlainOf(a) + PlainOf(b)
  {
    hide PlainOf;
    if a == [] {
      assert a + b == b;
      NothingShown();
    } else {
      assert (a + b)[1..] == a[1..] + b;
      PlainConcat(a[1..], b);
      PlainStep(a);
      PlainStep(a + b);
    }
  }

  /** What a row shows, counted: one glyph is missing if it drops one, none otherwise. */
  lemma RowShowsAllBut(text: seq<Glyph>, column: int, limit: int)
    requires 0 <= column <= limit
    ensures var r := Layout(text, column, limit, true);
            var lost := if Drops(text, column, limit, true) then 1 else 0;
            && r.consumed <= |text|
            && |Shown(r.out)| + lost == |PlainOf(text[..r.consumed])|
            && (lost == 0 ==> Shown(r.out) == PlainOf(text[..r.consumed]))
  {
    hide Layout, Drops, Shown, PlainOf;
    RowShowsAll(text, column, limit, true);
    var n := Layout(text, column, limit, true).consumed;
    if Drops(text, column, limit, true) {
      assert text[..n] == text[..n - 1] + [text[n - 1]];
      PlainConcat(text[..n - 1], [text[n - 1]]);
      PlainStep([text[n - 1]]);
      assert [text[n - 1]][1..] == [];
      NothingShown();
    }
  }

  lemma NothingShown()
    ensures Shown([]) == [] && PlainOf([]) == []
  {
  }

  lemma OneShown(g: Glyph)
    ensures Shown([Show(g)]) == [g]
  {
    assert [Show(g)][1..] == [];
  }

  /** One glyph in front of a row that is already understood. */
  lemma Stepped(text: seq<Glyph>, marks: seq<Mark>, r: Row, drops: bool)
    requires text != [] && r.consumed <= |text| - 1
    requires Shown(marks) == if text[0].Plain() then [text[0]] else []
    requires drops ==> r.consumed > 0 && text[1..][r.consumed - 1].Wide? && Shown(r.out) == PlainOf(text[1..][..r.consumed - 1])
    requires !drops ==> Shown(r.out) == PlainOf(text[1..][..r.consumed])
    ensures var after := After(1, marks, r);
            && (drops ==> text[after.consumed - 1].Wide? && Shown(after.out) == PlainOf(text[..after.consumed - 1]))
            && (!drops ==> Shown(after.out) == PlainOf(text[..after.consumed]))
  {
    ShownConcat(marks, r.out);
    var n := r.consumed;
    assert text[..1 + n][1..] == text[1..][..n];
    if drops {
      assert text[..n][1..] == text[1..][..n - 1];
    }
  }

  // ---------------------------------------------------------------------------------------
  // Layout loops
  // ---------------------------------------------------------------------------------------

  /** A layout loop between two rows: where it is in the text and which column it has reached. */
  datatype At = At(beg: nat, column: int)

  ghost predicate Inside(text: seq<Glyph>, width: int, a: At) {
    a.beg <= |text| && 0 <= a.column && width >= 1
  }

  /** One round: continue on this row, or on a new one if it is full. */
  ghost function Step(text: seq<Glyph>, width: int, a: At): (b: At)
    requires Inside(text, width, a)
    ensures Inside(text, width, b)
  {
    if a.beg == |text| then a
    else
      var column := if a.column >= width then 0 else a.column;
      RowBounds(text[a.beg..], column, width, true);
      var r := Layout(text[a.beg..], column, width, true);
      At(a.beg + r.consumed, r.column)
  }

  ghost function Steps(text: seq<Glyph>, width: int, a: At, n: nat): At
    requires Inside(text, width, a)
    decreases n
  {
    if n == 0 then a else Steps(text, width, Step(text, width, a), n - 1)
  }

  /** How many rounds the loop takes from here. */
  lemma {:induction false} ReachesEnd(text: seq<Glyph>, width: int, a: At) returns (n: nat)
    requires Inside(text, width, a) && CanFlow(text[a.beg..], width)
    ensures Steps(text, width, a, n).beg == |text|
    decreases |text| - a.beg, if a.column >= width || a.column == 0 then 0 else 1
  {
    n := 0;
    if a.beg < |text| {
      var b := Step(text, width, a);
      var column := if a.column >= width then 0 else a.column;
      RowBounds(text[a.beg..], column, width, true);
      if column == 0 {
        EdgeConsumes(text[a.beg..], width);
      }
      assert text[b.beg..] == text[a.beg..][b.beg - a.beg..];
      n := ReachesEnd(text, width, b);
      n := n + 1;
    }
  }

  /** In a single column, `^X` is padded away but never taken. */
  lemma {:induction false} StuckAtControl(text: seq<Glyph>, a: At, k: nat, n: nat)
    requires Inside(text, 1, a) && a.beg <= k < |text| && text[k].Ctrl?
    ensures Steps(text, 1, a, n).beg <= k
    decreases n
  {
    if n > 0 {
      var t := text[a.beg..];
      assert t[0] == text[a.beg];
      assert Layout(t, 0, 1, true).consumed <= 1;
      StuckAtControl(text, Step(text, 1, a), k, n - 1);
    }
  }

  /** The layout loop ends if and only if there are two columns to work with or no control character is left. */
  lemma LoopEndsIff(text: seq<Glyph>, width: int, a: At)
    requires Inside(text, width, a)
    ensures (exists n: nat :: Steps(text, width, a, n).beg == |text|) <==> CanFlow(text[a.beg..], width)
  {
    if CanFlow(text[a.beg..], width) {
      var n := ReachesEnd(text, width, a);
    } else {
      var i :| 0 <= i < |text[a.beg..]| && text[a.beg..][i].Ctrl?;
      forall n: nat
        ensures Steps(text, width, a, n).beg < |text|
      {
        StuckAtControl(text, a, a.beg + i, n);
      }
    }
  }
}
