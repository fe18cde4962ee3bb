/** Command-line quoting: two printers of argument lists and the one parser, the documented Windows rules, that has to
    read both. */
module ArgQuoting {

  ghost const BACKSLASH: char := '\\'
  ghost const QUOTE: char := '"'

  ghost predicate IsBlank(c: char) {
    c == ' ' || c == '\t'
  }

  function Slashes(n: nat): (s: string)
    ensures |s| == n && forall i :: 0 <= i < n ==> s[i] == '\\'
  {
    if n == 0 then [] else Slashes(n - 1) + ['\\']
  }

  // ---------------------------------------------------------------------------------------
  // The parser
  // ---------------------------------------------------------------------------------------

  datatype Argument = NoArgument | Begun(text: string)

  /** The arguments read so far, the one being read, and the backslashes not yet accounted for. */
  datatype Parser = Parser(args: seq<string>, current: Argument, quoted: bool, slashes: nat) {
    ghost function Text(): string {
      if current.Begun? then current.text else []
    }

    ghost function Pending(): string {
      Text() + Slashes(slashes)
    }
  }

  ghost const START: Parser := Parser([], NoArgument, false, 0)

  /** Arguments are separated by blanks outside quotes. Backslashes are literal unless they precede a quote: then each
      pair stands for one backslash, and the quote opens or closes a quoted part, or is literal if one is left over. */
  ghost function Feed(p: Parser, c: char): Parser {
    if c == BACKSLASH then
      p.(current := Begun(p.Text()), slashes := p.slashes + 1)
    else if c == QUOTE then
      var text := p.Text() + Slashes(p.slashes / 2);
      if p.slashes % 2 == 0 then Parser(p.args, Begun(text), !p.quoted, 0)
      else Parser(p.args, Begun(text + [QUOTE]), p.quoted, 0)
    else if IsBlank(c) && !p.quoted then
      if p.current.NoArgument? then p else Parser(p.args + [p.Pending()], NoArgument, false, 0)
    else
      Parser(p.args, Begun(p.Pending() + [c]), p.quoted, 0)
  }

  ghost function Run(p: Parser, s: string): Parser
    decreases |s|
  {
    if s == [] then p else Run(Feed(p, s[0]), s[1..])
  }

  ghost function Split(s: string): seq<string> {
    var p := Run(START, s);
    if p.current.NoArgument? then p.args else p.args + [p.Pending()]
  }

  lemma {:induction false} RunConcat(p: Parser, a: string, b: string)
    ensures Run(p, a + b) == Run(Run(p, a), b)
    decreases |a|
  {
    if a == [] {
      assert a + b == b;
    } else {
      assert (a + b)[1..] == a[1..] + b;
      RunConcat(Feed(p, a[0]), a[1..], b);
    }
  }

  lemma RunOne(p: Parser, c: char)
    ensures Run(p, [c]) == Feed(p, c)
  {
    assert [c][1..] == [];
  }

  lemma {:induction false} RunSlashes(p: Parser, n: nat)
    ensures Run(p, Slashes(n)) == if n == 0 then p else p.(current := Begun(p.Text()), slashes := p.slashes + n)
  {
    if n > 0 {
      RunSlashes(p, n - 1);
      RunConcat(p, Slashes(n - 1), [BACKSLASH]);
      RunOne(Run(p, Slashes(n - 1)), BACKSLASH);
    }
  }

  /** Backslashes followed by one more character, in one go. */
  lemma RunSlashesThen(p: Parser, n: nat, c: char)
    ensures Run(p, Slashes(n) + [c]) ==
            Feed(if n == 0 then p else p.(current := Begun(p.Text()), slashes := p.slashes + n), c)
  {
    RunConcat(p, Slashes(n), [c]);
    RunSlashes(p, n);
    RunOne(Run(p, Slashes(n)), c);
  }

  /** What was read before plays no part in reading on. */
  lemma {:induction false} EarlierArgs(p: Parser, before: seq<string>, s: string)
    ensures Run(p.(args := before + p.args), s) == Run(p, s).(args := before + Run(p, s).args)
    decreases |s|
  {
    if s != [] {
      var q := Feed(p, s[0]);
      assert before + (p.args + [p.Pending()]) == (before + p.args) + [p.Pending()];
      assert Feed(p.(args := before + p.args), s[0]) == q.(args := before + q.args);
      EarlierArgs(q, before, s[1..]);
    }
  }

  /** `token` reads as exactly one argument, `value`. */
  ghost predicate Denotes(token: string, value: string) {
    var p := Run(START, token);
    p.args == [] && p.current.Begun? && !p.quoted && p.Pending() == value
  }

  /** A token after complete arguments adds its argument, whether a blank or the end follows. */
  lemma AppendToken(line: string, args: seq<string>, token: string, value: string)
    requires Run(START, line) == Parser(args, NoArgument, false, 0) && Denotes(token, value)
    ensures Split(line + token) == args + [value]
    ensures Run(START, line + token + " ") == Parser(args + [value], NoArgument, false, 0)
  {
    RunConcat(START, line, token);
    EarlierArgs(START, args, token);
    assert args + [] == args;
    var p := Run(START, line + token);
    RunConcat(START, line + token, " ");
    RunOne(p, ' ');
  }

  // ---------------------------------------------------------------------------------------
  // The launcher's printer
  // ---------------------------------------------------------------------------------------

  /** `QuoteArgument`: always quoted; backslashes are held back until it is known what they precede. */
  method QuoteArgument(value: string) returns (quoted: string)
    ensures Denotes(quoted, value)
  {
    hide Run, Slashes;
    quoted := ['"'];
    OpenQuote();
    NoSlashes();
    var slashes := 0;
    ghost var pre: string := [];
    var i := 0;
    while i < |value|
      invariant 0 <= i <= |value| && 0 <= slashes
      invariant Run(START, quoted) == Parser([], Begun(pre), true, 0)
      invariant value[..i] == pre + Slashes(slashes)
    {
      var c := value[i];
      assert value[..i + 1] == value[..i] + [c];
      if c == '\\' {
        MoreSlashes(pre, slashes);
        slashes := slashes + 1;
      } else if c == '"' {
        Emit(quoted, pre, slashes * 2 + 1, c);
        Halves(slashes);
        quoted := quoted + Slashes(slashes * 2 + 1) + [c];
        pre := pre + Slashes(slashes) + [c];
        slashes := 0;
      } else {
        Emit(quoted, pre, slashes, c);
        quoted := quoted + Slashes(slashes) + [c];
        pre := pre + Slashes(slashes) + [c];
        slashes := 0;
      }
      i := i + 1;
    }
    assert value[..i] == value;
    Emit(quoted, pre, slashes * 2, QUOTE);
    Halves(slashes);
    quoted := quoted + Slashes(slashes * 2) + ['"'];
    assert pre + Slashes(slashes) + Slashes(0) == value;
  }

  lemma OpenQuote()
    ensures Run(START, [QUOTE]) == Parser([], Begun([]), true, 0)
  {
    RunOne(START, QUOTE);
    assert START.Text() + Slashes(0) == [];
  }

  lemma NoSlashes()
    ensures Slashes(0) == []
  {
  }

  lemma MoreSlashes(pre: string, n: nat)
    ensures pre + Slashes(n) + [BACKSLASH] == pre + Slashes(n + 1)
  {
  }

  lemma Halves(n: nat)
    ensures (n * 2 + 1) / 2 == n && (n * 2 + 1) % 2 == 1 && n * 2 / 2 == n && n * 2 % 2 == 0
  {
  }

  /** What the parser makes of held-back backslashes and the character after them, inside quotes. */
  lemma Emit(line: string, pre: string, n: nat, c: char)
    requires Run(START, line) == Parser([], Begun(pre), true, 0) && c != BACKSLASH
    ensures Run(START, line + Slashes(n) + [c]) ==
            if c != QUOTE then Parser([], Begun(pre + Slashes(n) + [c]), true, 0)
            else if n % 2 == 0 then Parser([], Begun(pre + Slashes(n / 2)), false, 0)
            else Parser([], Begun(pre + Slashes(n / 2) + [QUOTE]), true, 0)
  {
    var p := Parser([], Begun(pre), true, 0);
    assert line + Slashes(n) + [c] == line + (Slashes(n) + [c]);
    RunConcat(START, line, Slashes(n) + [c]);
    RunSlashesThen(p, n, c);
  }

  /** The joining loop of `wWinMain`: everything after the program name. */
  method JoinQuoted(args: seq<string>) returns (line: string)
    ensures Split(line) == args
  {
    hide Run, Denotes;
    line := [];
    StartOver();
    ghost var before: string := [];
    var i := 0;
    while i < |args|
      invariant 0 <= i <= |args| && Split(line) == args[..i]
      invariant Run(START, line + " ") == Parser(args[..i], NoArgument, false, 0)
    {
      var token := QuoteArgument(args[i]);
      AppendToken(line + " ", args[..i], token, args[i]);
      assert args[..i + 1] == args[..i] + [args[i]];
      line := line + " " + token;
      i := i + 1;
    }
    assert args[..i] == args;
  }

  lemma StartOver()
    ensures Split([]) == [] && Run(START, [] + " ") == START
  {
    assert [] + " " == " ";
    RunOne(START, ' ');
  }

  // ---------------------------------------------------------------------------------------
  // The console's printer
  // ---------------------------------------------------------------------------------------

  ghost predicate Special(c: char) {
    c == BACKSLASH || c == QUOTE || IsBlank(c)
  }

  /** The counting pass: is there a blank, and is there anything at all that needs care? */
  method Inspect(value: string) returns (hasSpace: bool, special: bool)
    ensures hasSpace <==> exists i :: 0 <= i < |value| && IsBlank(value[i])
    ensures special <==> exists i :: 0 <= i < |value| && Special(value[i])
  {
    hasSpace := false;
    var n := |value|;
    var i := 0;
    while i < |value|
      invariant 0 <= i <= |value| && |value| <= n
      invariant hasSpace <==> exists k :: 0 <= k < i && IsBlank(value[k])
      invariant n != |value| || hasSpace <==> exists k :: 0 <= k < i && Special(value[k])
    {
      if value[i] == '"' || value[i] == '\\' {
        n := n + 1;
      } else if value[i] == ' ' || value[i] == '\t' {
        hasSpace := true;
      }
      i := i + 1;
    }
    if hasSpace {
      n := n + 2;
    }
    special := n != |value|;
  }

  /** Text without blanks, quotes or backslashes stands for itself. */
  lemma {:induction false} PlainDenotesItself(value: string)
    requires value != [] && forall i :: 0 <= i < |value| ==> !Special(value[i])
    ensures Run(START, value) == Parser([], Begun(value), false, 0)
  {
    var front, last := value[..|value| - 1], value[|value| - 1];
    assert value == front + [last];
    RunConcat(START, front, [last]);
    RunOne(Run(START, front), last);
    NoSlashes();
    if front != [] {
      PlainDenotesItself(front);
      assert front + Slashes(0) == front;
    } else {
      assert Run(START, front) == START && START.Pending() == [];
    }
  }

  /** A space or a tab between plain words separates two arguments; any other plain character joins them. */
  lemma BlanksSeparate(a: string, c: char, b: string)
    requires a != [] && b != [] && (forall i :: 0 <= i < |a| ==> !Special(a[i])) && forall i :: 0 <= i < |b| ==> !Special(b[i])
    ensures c == ' ' || c == '\t' ==> Split(a + [c] + b) == [a, b]
    ensures c != ' ' && c != '\t' && c != '"' && c != '\\' ==> Split(a + [c] + b) == [a + [c] + b]
  {
    hide Run, Slashes;
    NoSlashes();
    if c == ' ' || c == '\t' {
      PlainDenotesItself(a);
      PlainDenotesItself(b);
      RunConcat(START, a, [c]);
      RunOne(Run(START, a), c);
      assert a + [] == a && b + [] == b;
      AppendToken(a + [c], [a], b, b);
    } else if c != '"' && c != '\\' {
      var all := a + [c] + b;
      PlainDenotesItself(all);
      assert all + [] == all;
    }
  }

  /** The parser after part of an escaped argument: unlike `QuoteArgument`, backslashes are written at once and more
      are added when a quote follows. */
  ghost predicate Escaping(line: string, value: string, n: nat, pre: string, quoted: bool, slashes: nat)
    requires n <= |value|
  {
    var p := Run(START, line);
    && p.args == [] && p.quoted == quoted && p.slashes == slashes
    && p.Text() == pre && (n > 0 || quoted ==> p.current.Begun?)
    && value[..n] == pre + Slashes(slashes)
  }

  lemma EscapeStart(value: string, quoted: bool)
    ensures Escaping(if quoted then [QUOTE] else [], value, 0, [], quoted, 0)
  {
    OpenQuote();
    NoSlashes();
  }

  lemma EscapeSlash(line: string, value: string, n: nat, pre: string, quoted: bool, slashes: nat)
    requires n < |value| && value[n] == BACKSLASH && Escaping(line, value, n, pre, quoted, slashes)
    ensures Escaping(line + [BACKSLASH], value, n + 1, pre, quoted, slashes + 1)
  {
    RunConcat(START, line, [BACKSLASH]);
    RunOne(Run(START, line), BACKSLASH);
    assert value[..n + 1] == value[..n] + [BACKSLASH];
    MoreSlashes(pre, slashes);
  }

  lemma EscapeQuote(line: string, value: string, n: nat, pre: string, quoted: bool, slashes: nat)
    requires n < |value| && value[n] == QUOTE && Escaping(line, value, n, pre, quoted, slashes)
    ensures Escaping(line + Slashes(slashes) + [BACKSLASH] + [QUOTE], value, n + 1, pre + Slashes(slashes) + [QUOTE], quoted, 0)
  {
    hide Run, Slashes;
    var p := Run(START, line);
    var more := Slashes(slashes + 1) + [QUOTE];
    EscapedQuoteText(line, slashes);
    RunConcat(START, line, more);
    RunSlashesThen(p, slashes + 1, QUOTE);
    Halves(slashes);
    assert value[..n + 1] == value[..n] + [QUOTE];
    NoSlashes();
    assert pre + Slashes(slashes) + [QUOTE] + [] == pre + Slashes(slashes) + [QUOTE];
  }

  lemma EscapedQuoteText(line: string, slashes: nat)
    ensures line + Slashes(slashes) + [BACKSLASH] + [QUOTE] == line + (Slashes(slashes + 1) + [QUOTE])
  {
    hide Slashes;
    MoreSlashes(line, slashes);
    assert line + Slashes(slashes + 1) + [QUOTE] == line + (Slashes(slashes + 1) + [QUOTE]);
  }

  lemma EscapeOther(line: string, value: string, n: nat, pre: string, quoted: bool, slashes: nat)
    requires n < |value| && value[n] != QUOTE && value[n] != BACKSLASH && (IsBlank(value[n]) ==> quoted)
    requires Escaping(line, value, n, pre, quoted, slashes)
    ensures Escaping(line + [value[n]], value, n + 1, pre + Slashes(slashes) + [value[n]], quoted, 0)
  {
    RunConcat(START, line, [value[n]]);
    RunOne(Run(START, line), value[n]);
    assert value[..n + 1] == value[..n] + [value[n]];
    NoSlashes();
  }

  lemma EscapeEnd(line: string, value: string, pre: string, quoted: bool, slashes: nat)
    requires value != [] && Escaping(line, value, |value|, pre, quoted, slashes)
    ensures !quoted ==> Denotes(line, value)
    ensures quoted ==> Denotes(line + Slashes(slashes) + [QUOTE], value)
  {
    assert value[..|value|] == value;
    if quoted {
      var p := Run(START, line);
      assert line + Slashes(slashes) + [QUOTE] == line + (Slashes(slashes) + [QUOTE]);
      RunConcat(START, line, Slashes(slashes) + [QUOTE]);
      RunSlashesThen(p, slashes, QUOTE);
      Halves(slashes);
      NoSlashes();
      assert pre + Slashes(slashes) + Slashes(0) == value;
    }
  }

  /** `EscapeArgument`: quoted only if there is a blank; left alone if there is nothing to escape. */
  method EscapeArgument(value: string) returns (buf: string)
    ensures Denotes(buf, value)
    ensures value != [] && (forall i :: 0 <= i < |value| ==> !Special(value[i])) ==> buf == value
  {
    hide Run, Slashes, Escaping;
    if value == [] {
      DenotesEmpty();
      return "\"\"";
    }
    var hasSpace, special := Inspect(value);
    if !special {
      PlainDenotesItself(value);
      NoSlashes();
      return value;
    }
    buf := if hasSpace then ['"'] else [];
    EscapeStart(value, hasSpace);
    var slashes := 0;
    ghost var pre: string := [];
    var i := 0;
    while i < |value|
      invariant 0 <= i <= |value| && 0 <= slashes && Escaping(buf, value, i, pre, hasSpace, slashes)
    {
      var c := value[i];
      if c == '\\' {
        EscapeSlash(buf, value, i, pre, hasSpace, slashes);
        slashes := slashes + 1;
        buf := buf + ['\\'];
      } else if c == '"' {
        EscapeQuote(buf, value, i, pre, hasSpace, slashes);
        pre := pre + Slashes(slashes) + [QUOTE];
        buf := buf + Slashes(slashes) + ['\\'] + [c];
        slashes := 0;
      } else {
        EscapeOther(buf, value, i, pre, hasSpace, slashes);
        pre := pre + Slashes(slashes) + [c];
        slashes := 0;
        buf := buf + [c];
      }
      i := i + 1;
    }
    EscapeEnd(buf, value, pre, hasSpace, slashes);
    if hasSpace {
      buf := buf + Slashes(slashes) + ['"'];
    }
  }

  lemma DenotesEmpty()
    ensures Denotes("\"\"", "")
  {
    assert "\"\"" == [QUOTE] + [QUOTE];
    OpenQuote();
    RunConcat(START, [QUOTE], [QUOTE]);
    RunOne(Parser([], Begun([]), true, 0), QUOTE);
    NoSlashes();
  }

  const CLIENT_COMMANDLINE_ARG: string := "--"

  /** `_GetClientCommandline`: the arguments from `index` on become the client's command line and leave the list. */
  method GetClientCommandline(args: seq<string>, index: nat, skipFirst: bool) returns (line: string, rest: seq<string>)
    requires index <= |args|
    requires skipFirst ==> index < |args| && args[index] == CLIENT_COMMANDLINE_ARG
    ensures Split(line) == if skipFirst then args[index + 1..] else args[index..]
    ensures rest == args[..index]
  {
    hide Run, Denotes, Split;
    var kept := args;
    if skipFirst {
      kept := args[..index] + args[index + 1..];
      assert kept[index..] == args[index + 1..];
    }
    assert kept[..index] == args[..index];
    ghost var client := kept[index..];
    line := [];
    Nothing();
    var j := index;
    assert kept[index..index] == [];
    while j < |kept|
      invariant index <= j <= |kept|
      invariant j < |kept| ==> Run(START, line) == Parser(kept[index..j], NoArgument, false, 0)
      invariant j == |kept| ==> Split(line) == client
    {
      var token := EscapeArgument(kept[j]);
      AppendToken(line, kept[index..j], token, kept[j]);
      assert kept[index..j + 1] == kept[index..j] + [kept[j]];
      line := line + token;
      if j + 1 < |kept| {
        line := line + " ";
      }
      j := j + 1;
      assert j == |kept| ==> kept[index..j] == client;
    }
    rest := kept[..index];
  }

  lemma Nothing()
    ensures Split([]) == [] && Run(START, []) == START
  {
  }
}
