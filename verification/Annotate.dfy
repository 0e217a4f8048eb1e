/** annotate_ifdef_directives.py: comments for #else and #endif lines. */
module Annotate {
  import opened Strings
  import opened Nesting
  import opened Wrappers

  const LINE_OBVIOUSNESS_LIMIT := 4
  const LINE_WIDTH := 80

  // ----- Directives -----

  /** The alternatives of the pattern, in its order. */
  const COMMANDS: seq<string> := ["if", "ifdef", "ifndef", "else", "endif", "elif"]

  /** \b at place i, behind a word character. */
  predicate Boundary(s: string, i: nat) { i >= |s| || !WordChar(s[i]) }

  /** The first alternative from number k on that matches at place i. */
  function Alternative(s: string, i: nat, k: nat): Option<string>
    requires k <= |COMMANDS|
    decreases |COMMANDS| - k
  {
    if k == |COMMANDS| then None
    else if StartsAt(s, i, COMMANDS[k]) && Boundary(s, i + |COMMANDS[k]|) then Some(COMMANDS[k])
    else Alternative(s, i, k + 1)
  }

  /** The groups of the match of \s*#\s*(if|ifdef|ifndef|else|endif|elif)\b\s*(.*) */
  datatype Match = NoMatch | Match(command: string, rest: string)

  function MatchLine(line: string): Match {
    var i := SkipSpace(line, 0);
    if i == |line| || line[i] != '#' then NoMatch else
    var j := SkipSpace(line, i + 1);
    match Alternative(line, j, 0)
    case None => NoMatch
    case Some(command) =>
      if j + |command| > |line| then NoMatch else
      var r := SkipSpace(line, j + |command|);
      Match(command, line[r..Index(line, '\n', r)])
  }

  lemma CommandWord(k: nat)
    requires k < |COMMANDS|
    ensures COMMANDS[k] != [] && forall x :: 0 <= x < |COMMANDS[k]| ==> WordChar(COMMANDS[k][x])
  {
    assert k == 0 || k == 1 || k == 2 || k == 3 || k == 4 || k == 5;
  }

  /** The command that is matched is the whole word that stands there. */
  lemma {:induction false} AlternativeIsWord(s: string, i: nat, k: nat)
    requires i <= |s| && k <= |COMMANDS|
    ensures Alternative(s, i, k) == if s[i..WordEnd(s, i)] in COMMANDS[k..] then Some(s[i..WordEnd(s, i)]) else None
    decreases |COMMANDS| - k
  {
    if k < |COMMANDS| {
      AlternativeIsWord(s, i, k + 1);
      CommandWord(k);
      WordMatches(s, i, COMMANDS[k]);
      assert COMMANDS[k..] == [COMMANDS[k]] + COMMANDS[k + 1..];
      hide StartsAt, Boundary, WordEnd;
    }
  }

  /** A word stands at place i, up to a boundary, if and only if it is the whole word there. */
  lemma WordMatches(s: string, i: nat, c: string)
    requires i <= |s| && c != [] && forall x :: 0 <= x < |c| ==> WordChar(c[x])
    ensures StartsAt(s, i, c) && Boundary(s, i + |c|) <==> s[i..WordEnd(s, i)] == c
  {
    if StartsAt(s, i, c) && Boundary(s, i + |c|) {
      forall x | i <= x < i + |c| ensures WordChar(s[x]) { assert s[x] == s[i..i + |c|][x - i]; }
      WordIs(s, i, i + |c|);
    }
  }

  lemma {:induction false} WordIs(s: string, i: nat, n: nat)
    requires i <= n <= |s| && (forall x :: i <= x < n ==> WordChar(s[x])) && Boundary(s, n)
    ensures WordEnd(s, i) == n
    decreases n - i
  {
    if i < n { WordIs(s, i + 1, n); }
  }

  lemma MatchIsWord(line: string)
    ensures MatchLine(line).Match? ==> MatchLine(line).command in COMMANDS && OneLine(MatchLine(line).rest)
  {
    var i := SkipSpace(line, 0);
    if i < |line| && line[i] == '#' { AlternativeIsWord(line, SkipSpace(line, i + 1), 0); }
  }

  // ----- Expressions -----

  /** close_parens_needed */
  function CloseParensNeeded(expr: string): int { Count(expr, '(') - Count(expr, ')') }

  /** expr without its last n characters, an ellipsis, and the closing parentheses that are missing. */
  function Truncated(expr: string, n: nat): string
    requires n <= |expr|
  {
    var t := expr[..|expr| - n] + "...";
    t + Repeat(')', CloseParensNeeded(t))
  }

  /** The shortest truncation from n on that fits, or only an ellipsis. */
  function TruncateFrom(expr: string, width: int, n: nat): string
    decreases |expr| - n
  {
    if n >= |expr| then "..."
    else if |Truncated(expr, n)| <= width then Truncated(expr, n)
    else TruncateFrom(expr, width, n + 1)
  }

  function Truncate(expr: string, width: nat): string {
    if |expr| <= width then expr else TruncateFrom(expr, width, |expr| + 3 - width)
  }

  /** truncate_expression */
  method TruncateExpression(expr: string, width: nat) returns (r: string)
    ensures r == Truncate(expr, width)
  {
    if |expr| <= width {
      return expr;
    }
    var n := |expr| + 3 - width;
    while n < |expr|
      invariant n >= 0 && TruncateFrom(expr, width, n) == TruncateFrom(expr, width, |expr| + 3 - width)
    {
      var t := expr[..|expr| - n] + "...";
      t := t + Repeat(')', CloseParensNeeded(t));
      if |t| <= width {
        return t;
      }
      n := n + 1;
    }
    r := "...";
  }

  /** The cut at m is the first from n on that fits, or there is none and m is not in the expression. */
  lemma {:induction false} TruncatedFrom(expr: string, width: nat, n: nat) returns (m: nat)
    ensures n <= m && forall l :: n <= l < m && l < |expr| ==> |Truncated(expr, l)| > width
    ensures if m < |expr| then TruncateFrom(expr, width, n) == Truncated(expr, m) && |Truncated(expr, m)| <= width
            else TruncateFrom(expr, width, n) == "..."
    decreases |expr| - n
  {
    hide Truncated;
    if n < |expr| && |Truncated(expr, n)| > width {
      m := TruncatedFrom(expr, width, n + 1);
    } else {
      m := n;
    }
  }

  /** Cutting off n characters gives the longest truncation that fits. */
  predicate Longest(expr: string, width: nat, n: nat) {
    0 < n < |expr| && |Truncated(expr, n)| <= width && forall l :: 0 < l < n ==> |Truncated(expr, l)| > width
  }

  /** The result is the longest truncation that fits, or only an ellipsis if none does; and it lacks no closing
      parenthesis. */
  lemma TruncateFits(expr: string, width: nat)
    requires |expr| > width
    ensures var r := Truncate(expr, width);
            && (|r| <= width || r == "...") && CloseParensNeeded(r) <= 0
            && ((r == "..." && forall l :: 0 < l < |expr| ==> |Truncated(expr, l)| > width)
                || exists n :: Longest(expr, width, n) && r == Truncated(expr, n))
  {
    var n := |expr| + 3 - width;
    var m := TruncatedFrom(expr, width, n);
    var r := Truncate(expr, width);
    forall l | 0 < l < n && l < |expr| ensures |Truncated(expr, l)| > width {
      assert |Truncated(expr, l)| >= |expr| - l + 3;
    }
    Dots();
    if m < |expr| {
      assert Longest(expr, width, m);
      TruncatedBalance(expr, m);
    }
  }

  lemma TruncatedBalance(expr: string, m: nat)
    requires m <= |expr|
    ensures CloseParensNeeded(Truncated(expr, m)) <= 0
  {
    var t := expr[..|expr| - m] + "...";
    CountJoin(t, Repeat(')', CloseParensNeeded(t)), '(');
    CountJoin(t, Repeat(')', CloseParensNeeded(t)), ')');
    CountRepeat(')', CloseParensNeeded(t), '(');
    CountRepeat(')', CloseParensNeeded(t), ')');
  }

  lemma Dots()
    ensures CloseParensNeeded("...") == 0
  {
    assert "..."[..2] == ".." && ".."[..1] == "." && "."[..0] == "";
  }

  // ----- Lines -----

  /** A format with one %s in it. */
  datatype Format = Format(pre: string, post: string)

  function Fill(fmt: Format, argument: string): string { fmt.pre + argument + fmt.post }

  const ELSE_LINE := Format("#else /* ", " */\n")
  const ENDIF_LINE := Format("#endif /* ", " */\n")
  const ENDIF_OR_LINE := Format("#endif /* ", " || ... */\n")

  predicate IsFormat(fmt: Format) { fmt == ELSE_LINE || fmt == ENDIF_LINE || fmt == ENDIF_OR_LINE }

  /** The documented demands on a format, for a given width. */
  predicate FormatOk(fmt: Format, width: nat) {
    |fmt.pre| + 3 + |fmt.post| <= width && fmt.post != [] && fmt.post[|fmt.post| - 1] == '\n'
  }

  /** commented_line */
  function CommentedLine(fmt: Format, argument: string, width: nat): (r: string)
    requires FormatOk(fmt, width)
    ensures |r| <= width
  {
    if |Fill(fmt, argument)| <= width then Fill(fmt, argument) else
    var room := width - |fmt.pre + fmt.post|;
    TruncateFits(argument, room);
    Fill(fmt, Truncate(argument, room))
  }

  /** negate */
  function Negate(expr: string): string {
    var e := Strip(expr);
    if IsNegated(e) then e[SkipSpace(e, 1) + 1..|e| - 1] else
    var bang := e != [] && e[0] == '!';
    var q := SkipSpace(e, if bang then 1 else 0);
    if IsDefined(e, q) then (if bang then "" else "!") + e[q..] else "!(" + e + ")"
  }

  /** !\s*\(([^\)]*)\) */
  predicate IsNegated(e: string) {
    e != [] && e[0] == '!' &&
    var k := SkipSpace(e, 1);
    k < |e| && e[k] == '(' && Index(e, ')', k + 1) == |e| - 1
  }

  /** defined\([^\)]*\) from q on to the end. */
  predicate IsDefined(e: string, q: nat) {
    StartsAt(e, q, "defined(") && Index(e, ')', q + 8) == |e| - 1
  }

  /** uncomment */
  function Uncomment(s: string): string { Strip(CutAt(CutAt(s, "//", 0), "/*", 0)) }

  /** What is left is what precedes the first start of a comment, of either kind, but for spaces around it. */
  lemma UncommentCuts(s: string) returns (n: nat)
    ensures n <= |s| && Uncomment(s) == Strip(s[..n])
    ensures n < |s| ==> StartsAt(s, n, "//") || StartsAt(s, n, "/*")
    ensures forall k :: 0 <= k < n ==> !StartsAt(s, k, "//") && !StartsAt(s, k, "/*")
  {
    var a := CutIs(s, "//", 0);
    n := CutIs(s[..a], "/*", 0);
    assert s[..a][..n] == s[..n];
    forall k | 0 <= k <= n && k < a ensures StartsAt(s, k, "/*") <==> StartsAt(s[..a], k, "/*") {
      if k + 2 <= a {
        assert s[..a][k..k + 2] == s[k..k + 2];
      } else if a < |s| {
        assert s[a] == s[a..a + 2][0] == '/';
      }
    }
  }

  /** The condition that an #if, #ifdef or #ifndef line is remembered by. */
  function Condition(command: string, rest: string): string {
    Uncomment(if command == "ifdef" then "defined(" + Uncomment(rest) + ")"
              else if command == "ifndef" then "!defined(" + Uncomment(rest) + ")"
              else if rest != [] && rest[|rest| - 1] == '\\' then rest[..|rest| - 1] + "..."
              else rest)
  }

  lemma {:induction false} IndexIs(s: string, c: char, i: nat, n: nat)
    requires i <= n < |s| && s[n] == c && forall k :: i <= k < n ==> s[k] != c
    ensures Index(s, c, i) == n
    decreases n - i
  {
    if i < n { IndexIs(s, c, i + 1, n); }
  }

  lemma Stripped(e: string)
    requires e != [] && !Space(e[0]) && !Space(e[|e| - 1])
    ensures Strip(e) == e
  {
    assert e[0..] == e;
  }

  /** Negating twice gives back an expression without closing parentheses, but for the spaces around it. */
  lemma NegateTwice(expr: string)
    requires ')' !in Strip(expr)
    ensures Negate(expr) == "!(" + Strip(expr) + ")" && Negate(Negate(expr)) == Strip(expr)
  {
    var e := Strip(expr);
    var r := "!(" + e + ")";
    if IsNegated(e) || IsDefined(e, SkipSpace(e, if e != [] && e[0] == '!' then 1 else 0)) {
      assert false;
    }
    Stripped(r);
    assert SkipSpace(r, 1) == 1;
    forall k | 2 <= k < |r| - 1 ensures r[k] != ')' { assert r[k] == e[k - 2]; }
    IndexIs(r, ')', 2, |r| - 1);
    assert r[2..|r| - 1] == e;
  }

  /** And so it does for a condition that came from an #ifdef or #ifndef. */
  lemma NegateDefined(name: string)
    requires ')' !in name
    ensures Negate("defined(" + name + ")") == "!defined(" + name + ")"
    ensures Negate("!defined(" + name + ")") == "defined(" + name + ")"
  {
    hide Negate;
    PlainDefined("defined(" + name + ")", name);
    var u := "!defined(" + name + ")";
    assert u[1..] == "defined(" + name + ")";
    NotDefined(u, name);
  }

  lemma PlainDefined(d: string, name: string)
    requires d == "defined(" + name + ")" && ')' !in name
    ensures Negate(d) == "!" + d
  {
    hide IsDefined, Strip;
    assert d[0] == 'd' && d[0..] == d;
    Stripped(d);
    IsDefinedAt(d, 0, name);
  }

  lemma NotDefined(u: string, name: string)
    requires u != [] && u[0] == '!' && u[1..] == "defined(" + name + ")" && ')' !in name
    ensures Negate(u) == u[1..]
  {
    hide IsDefined, Strip;
    assert u[1] == u[1..][0] == 'd' && u[|u| - 1] == u[1..][|u| - 2] == ')';
    Stripped(u);
    IsDefinedAt(u, 1, name);
  }

  lemma IsDefinedAt(e: string, q: nat, name: string)
    requires q <= |e| && e[q..] == "defined(" + name + ")" && ')' !in name
    ensures IsDefined(e, q)
  {
    assert e[q..q + 8] == e[q..][..8] == "defined(";
    forall k | q + 8 <= k < |e| - 1 ensures e[k] != ')' { assert e[k] == e[q..][k - q] == name[k - q - 8]; }
    assert e[|e| - 1] == e[q..][|e| - 1 - q];
    IndexIs(e, ')', q + 8, |e| - 1);
  }

  // ----- translate -----

  datatype Directive = Directive(command: string, rest: string, lineno: nat)

  datatype State = State(stack: seq<seq<Directive>>, cur: seq<Directive>, lineno: nat, out: seq<string>)

  datatype Problem = Unexpected(command: string, lineno: nat) | Unmatched(lineno: nat) | Missing

  datatype Outcome<+T> = Ok(value: T) | Fail(problem: Problem)

  const START: State := State([], [], 0, [])

  predicate IsIf(command: string) { command == "if" || command == "ifdef" || command == "ifndef" }

  /** The line that replaces an #else, and whether one does. */
  function ElseLine(cur: seq<Directive>, command: string, lineno: nat, line: string): string {
    if |cur| == 1 && command == "else" && lineno > cur[0].lineno + LINE_OBVIOUSNESS_LIMIT
    then CommentedLine(ELSE_LINE, Negate(cur[0].rest), LINE_WIDTH) else line
  }

  /** The line that replaces an #endif, and whether one does. */
  function EndifLine(cur: seq<Directive>, lineno: nat, line: string): string
    requires cur != []
  {
    if lineno <= cur[0].lineno + LINE_OBVIOUSNESS_LIMIT then line
    else if |cur| == 1 || (|cur| == 2 && cur[1].command == "else")
    then CommentedLine(ENDIF_LINE, cur[0].rest, LINE_WIDTH)
    else CommentedLine(ENDIF_OR_LINE, cur[0].rest, LINE_WIDTH)
  }

  /** One turn of translate's loop. */
  function Step(s: State, line: string): Outcome<State> {
    var n := s.lineno + 1;
    match MatchLine(line)
    case NoMatch => Ok(s.(lineno := n, out := s.out + [line]))
    case Match(command, rest) =>
      if IsIf(command) then
        Ok(State(s.stack + [s.cur], [Directive(command, Condition(command, rest), n)], n, s.out + [line]))
      else if command == "else" || command == "elif" then
        if s.cur == [] || s.cur[|s.cur| - 1].command == "else" then Fail(Unexpected(command, n)) else
        Ok(State(s.stack, s.cur + [Directive(command, rest, n)], n, s.out + [ElseLine(s.cur, command, n, line)]))
      else if s.stack == [] || s.cur == [] then Fail(Unmatched(n)) else
        Ok(State(s.stack[..|s.stack| - 1], s.stack[|s.stack| - 1], n, s.out + [EndifLine(s.cur, n, line)]))
  }

  function Run(lines: seq<string>): Outcome<State> {
    if lines == [] then Ok(START) else
      match Run(lines[..|lines| - 1])
      case Fail(p) => Fail(p)
      case Ok(s) => Step(s, lines[|lines| - 1])
  }

  function Translation(lines: seq<string>): Outcome<seq<string>> {
    match Run(lines)
    case Fail(p) => Fail(p)
    case Ok(s) => if s.stack != [] || s.cur != [] then Fail(Missing) else Ok(s.out)
  }

  /** translate, what it writes for an #else or #elif. */
  method WriteElse(cur: seq<Directive>, command: string, lineno: nat, line: string) returns (l: string)
    ensures l == ElseLine(cur, command, lineno, line)
  {
    hide Negate, CommentedLine;
    if |cur| == 1 && command == "else" && lineno > cur[0].lineno + LINE_OBVIOUSNESS_LIMIT {
      l := CommentedLine(ELSE_LINE, Negate(cur[0].rest), LINE_WIDTH);
    } else {
      l := line;
    }
  }

  /** translate, what it writes for an #endif. */
  method WriteEndif(cur: seq<Directive>, lineno: nat, line: string) returns (l: string)
    requires cur != []
    ensures l == EndifLine(cur, lineno, line)
  {
    hide CommentedLine;
    if lineno <= cur[0].lineno + LINE_OBVIOUSNESS_LIMIT {
      l := line;
    } else if |cur| == 1 || (|cur| == 2 && cur[1].command == "else") {
      l := CommentedLine(ENDIF_LINE, cur[0].rest, LINE_WIDTH);
    } else {
      l := CommentedLine(ENDIF_OR_LINE, cur[0].rest, LINE_WIDTH);
    }
  }

  /** translate */
  method Translate(lines: seq<string>) returns (r: Outcome<seq<string>>)
    ensures r == Translation(lines)
  {
    hide MatchLine, Condition, ElseLine, EndifLine, Run, Translation;
    var stack: seq<seq<Directive>>, cur: seq<Directive>, lineno, out := [], [], 0, [];
    Begin(lines);
    while lineno < |lines|
      invariant lineno <= |lines| && Run(lines[..lineno]) == Ok(State(stack, cur, lineno, out))
    {
      var line := lines[lineno];
      Turn(lines, lineno);
      NotEmpty(lines, lineno);
      lineno := lineno + 1;
      var m := MatchLine(line);
      if m.NoMatch? {
        out := out + [line];
      } else if m.command == "if" || m.command == "ifdef" || m.command == "ifndef" {
        stack := stack + [cur];
        cur := [Directive(m.command, Condition(m.command, m.rest), lineno)];
        out := out + [line];
      } else if m.command == "else" || m.command == "elif" {
        if cur == [] || cur[|cur| - 1].command == "else" {
          return Fail(Unexpected(m.command, lineno));
        }
        var l := WriteElse(cur, m.command, lineno, line);
        out := out + [l];
        cur := cur + [Directive(m.command, m.rest, lineno)];
      } else {
        if stack == [] {
          return Fail(Unmatched(lineno));
        }
        var l := WriteEndif(cur, lineno, line);
        out := out + [l];
        cur := stack[|stack| - 1];
        stack := stack[..|stack| - 1];
      }
    }
    Finish(lines);
    if stack != [] || cur != [] {
      return Fail(Missing);
    }
    r := Ok(out);
  }

  lemma Begin(lines: seq<string>)
    ensures Run(lines[..0]) == Ok(START)
  {
  }

  lemma Finish(lines: seq<string>)
    requires Run(lines[..|lines|]).Ok?
    ensures var s := Run(lines[..|lines|]).value;
            Translation(lines) == if s.stack != [] || s.cur != [] then Fail(Missing) else Ok(s.out)
  {
    assert lines[..|lines|] == lines;
  }

  lemma NotEmpty(lines: seq<string>, k: nat)
    requires k <= |lines| && Run(lines[..k]).Ok?
    ensures Run(lines[..k]).value.stack != [] ==> Run(lines[..k]).value.cur != []
  {
    LevelsAreOpen(lines[..k]);
  }

  /** Translation fails if it has failed on some of the lines. */
  lemma {:induction false} FailsOn(lines: seq<string>, k: nat)
    requires k <= |lines| && Run(lines[..k]).Fail?
    ensures Run(lines) == Run(lines[..k])
    decreases |lines|
  {
    if k < |lines| {
      assert lines[..|lines| - 1][..k] == lines[..k];
      FailsOn(lines[..|lines| - 1], k);
    } else {
      assert lines[..k] == lines;
    }
  }

  lemma Turn(lines: seq<string>, k: nat)
    requires k < |lines| && Run(lines[..k]).Ok?
    ensures Run(lines[..k + 1]) == Step(Run(lines[..k]).value, lines[k])
    ensures Run(lines[..k + 1]).Fail? ==> Translation(lines) == Fail(Run(lines[..k + 1]).problem)
  {
    hide Step;
    assert lines[..k + 1][..k] == lines[..k];
    if Run(lines[..k + 1]).Fail? { FailsOn(lines, k + 1); }
  }

  // ----- What every reachable state keeps -----

  /** An open level begins with an #if, and what is remembered of it is one line. */
  predicate OpenLevel(level: seq<Directive>) {
    level != [] && IsIf(level[0].command) && OneLine(level[0].rest) && Arms(level)
  }

  /** After its #if, a level has #elif directives, and at the end at most one #else. */
  predicate Arms(level: seq<Directive>) {
    forall k :: 1 <= k < |level| ==> level[k].command == "elif" || (level[k].command == "else" && k == |level| - 1)
  }

  /** The lowest level is that of the file, which stays empty. */
  predicate Reachable(s: State) {
    && (if s.stack == [] then s.cur == [] else s.stack[0] == [] && OpenLevel(s.cur))
    && (forall k :: 1 <= k < |s.stack| ==> OpenLevel(s.stack[k]))
  }

  lemma {:induction false} LevelsAreOpen(lines: seq<string>)
    requires Run(lines).Ok?
    ensures Reachable(Run(lines).value) && Run(lines).value.lineno == |lines| == |Run(lines).value.out|
  {
    if lines != [] {
      hide Reachable, Step;
      var n := |lines| - 1;
      LevelsAreOpen(lines[..n]);
      StepReaches(Run(lines[..n]).value, lines[n]);
    }
  }

  lemma StepReaches(s: State, line: string)
    requires Reachable(s) && Step(s, line).Ok?
    ensures Reachable(Step(s, line).value) && Step(s, line).value.lineno == s.lineno + 1
    ensures |Step(s, line).value.out| == |s.out| + 1
  {
    hide MatchLine, Condition, Kind, ElseLine, EndifLine, OneLine, IsIf, OpenLevel;
    Cases(line);
    var m, n := MatchLine(line), s.lineno + 1;
    if m.Match? {
      ConditionOneLine(m.command, m.rest);
      if IsIf(m.command) {
        FirstArm(Directive(m.command, Condition(m.command, m.rest), n));
      } else if s.cur != [] && (m.command == "else" || m.command == "elif") && s.cur[|s.cur| - 1].command != "else" {
        NextArm(s.cur, Directive(m.command, m.rest, n));
      }
    }
  }

  lemma FirstArm(d: Directive)
    requires IsIf(d.command) && OneLine(d.rest)
    ensures OpenLevel([d])
  {
  }

  lemma NextArm(level: seq<Directive>, d: Directive)
    requires level != [] && level[|level| - 1].command != "else" && (d.command == "else" || d.command == "elif")
    ensures OpenLevel(level) ==> OpenLevel(level + [d])
  {
    if OpenLevel(level) {
      assert forall k :: 0 <= k < |level| ==> (level + [d])[k] == level[k];
    }
  }

  lemma ConditionOneLine(command: string, rest: string)
    requires OneLine(rest)
    ensures OneLine(Condition(command, rest))
  {
    UncommentOneLine(rest);
    UncommentOneLine("defined(" + Uncomment(rest) + ")");
    UncommentOneLine("!defined(" + Uncomment(rest) + ")");
    if rest != [] { UncommentOneLine(rest[..|rest| - 1] + "..."); }
  }

  lemma UncommentOneLine(s: string)
    ensures OneLine(s) ==> OneLine(Uncomment(s))
  {
    if OneLine(s) {
      CutOneLine(s, "//", 0);
      CutOneLine(CutAt(s, "//", 0), "/*", 0);
      StripOneLine(CutAt(CutAt(s, "//", 0), "/*", 0));
    }
  }

  lemma StripOneLine(s: string)
    requires OneLine(s)
    ensures OneLine(Strip(s))
  {
    StripEndOneLine(s[SkipSpace(s, 0)..]);
  }

  // ----- Failure -----

  function Kind(line: string): Cmd {
    match MatchLine(line)
    case NoMatch => Plain
    case Match(command, rest) =>
      if IsIf(command) then If else if command == "elif" then Elif else if command == "else" then Else else Endif
  }

  function Kinds(lines: seq<string>): seq<Cmd> {
    if lines == [] then [] else Kinds(lines[..|lines| - 1]) + [Kind(lines[|lines| - 1])]
  }

  /** For each open level, whether it has come to its #else. */
  function Levels(stack: seq<seq<Directive>>, cur: seq<Directive>): seq<bool> {
    if stack == [] then [] else
      Levels(stack[..|stack| - 1], stack[|stack| - 1]) + [cur != [] && cur[|cur| - 1].command == "else"]
  }

  /** The commands and their kinds. */
  lemma Cases(line: string)
    ensures var m := MatchLine(line);
            if m.NoMatch? then Kind(line) == Plain
            else && OneLine(m.rest)
                 && (IsIf(m.command) <==> Kind(line) == If) && (m.command == "else" <==> Kind(line) == Else)
                 && (m.command == "elif" <==> Kind(line) == Elif) && (m.command == "endif" <==> Kind(line) == Endif)
                 && Kind(line) != Plain
  {
    MatchIsWord(line);
    if MatchLine(line).Match? { NotTwo(); }
    hide MatchLine;
  }

  lemma NotTwo()
    ensures !IsIf("else") && !IsIf("elif") && !IsIf("endif") && "else" != "elif" && "else" != "endif" && "elif" != "endif"
    ensures forall c :: c in COMMANDS ==> IsIf(c) || c == "else" || c == "elif" || c == "endif"
  {
    assert |"else"| == 4 && "else"[1] == 'l' && "elif"[3] == 'f' && "else"[3] == 'e';
  }

  lemma {:induction false} RunIsMoves(lines: seq<string>)
    ensures Run(lines).Ok? <==> Moves([], Kinds(lines)).Some?
    ensures Run(lines).Ok? ==> Levels(Run(lines).value.stack, Run(lines).value.cur) == Moves([], Kinds(lines)).value
  {
    if lines != [] {
      var n := |lines| - 1;
      RunIsMoves(lines[..n]);
      assert Kinds(lines)[..n] == Kinds(lines[..n]) by { KindsLength(lines[..n]); }
      if Run(lines[..n]).Ok? {
        LevelsAreOpen(lines[..n]);
        StepIsMove(Run(lines[..n]).value, lines[n]);
      }
    }
  }

  lemma {:induction false} KindsLength(lines: seq<string>)
    ensures |Kinds(lines)| == |lines|
  {
    if lines != [] { KindsLength(lines[..|lines| - 1]); }
  }

  lemma StepIsMove(s: State, line: string)
    requires Reachable(s)
    ensures var st := Levels(s.stack, s.cur);
            && (Step(s, line).Ok? <==> Move(st, Kind(line)).Some?)
            && (Step(s, line).Ok? ==>
                 Levels(Step(s, line).value.stack, Step(s, line).value.cur) == Move(st, Kind(line)).value)
  {
    Cases(line);
    hide MatchLine, Kind, IsIf, Condition, ElseLine, EndifLine;
    LevelsLength(s.stack, s.cur);
    var k := Kind(line);
    if k == If {
      assert (s.stack + [s.cur])[..|s.stack|] == s.stack;
    } else if s.stack != [] && k == Endif {
      LevelsLength(s.stack[..|s.stack| - 1], s.stack[|s.stack| - 1]);
    }
  }

  lemma {:induction false} LevelsLength(stack: seq<seq<Directive>>, cur: seq<Directive>)
    ensures |Levels(stack, cur)| == |stack|
  {
    if stack != [] { LevelsLength(stack[..|stack| - 1], stack[|stack| - 1]); }
  }

  /** translate fails if and only if the directives are not well nested. */
  lemma FailsIffNotNested(lines: seq<string>)
    ensures Translation(lines).Fail? <==> !WellNested(Kinds(lines))
  {
    NestedIffAccepted(Kinds(lines));
    RunIsMoves(lines);
    if Run(lines).Ok? {
      LevelsAreOpen(lines);
      LevelsLength(Run(lines).value.stack, Run(lines).value.cur);
    }
  }

  // ----- The conditions in the comments -----

  /** How many conditionals are open. */
  function Depth(lines: seq<string>): int { if Run(lines).Ok? then |Run(lines).value.stack| else -1 }

  /** Level d of a state; level 0 is the file's. */
  function LevelAt(s: State, d: nat): seq<Directive>
    requires d <= |s.stack|
  {
    if d < |s.stack| then s.stack[d] else s.cur
  }

  /** Line i is the #if, #ifdef or #ifndef that has opened level d, which has not been closed since; and the level
      remembers its condition. */
  predicate OpenedBy(lines: seq<string>, i: nat, d: nat, level: seq<Directive>) {
    && i < |lines| && level != [] && Kind(lines[i]) == If && MatchLine(lines[i]).Match?
    && level[0] == Directive(MatchLine(lines[i]).command, Condition(MatchLine(lines[i]).command, MatchLine(lines[i]).rest), i + 1)
    && Depth(lines[..i]) == d - 1 && forall j :: i < j <= |lines| ==> Depth(lines[..j]) >= d
  }

  /** The condition that an #else or #endif line gets for a comment is that of the #if line it belongs to. */
  lemma {:induction false} MatchingIf(lines: seq<string>, d: nat) returns (i: nat)
    requires Run(lines).Ok? && 1 <= d <= |Run(lines).value.stack|
    ensures OpenedBy(lines, i, d, LevelAt(Run(lines).value, d))
  {
    var n := |lines| - 1;
    var s, s' := Run(lines[..n]).value, Run(lines).value;
    LevelsAreOpen(lines[..n]);
    Cases(lines[n]);
    hide MatchLine, Condition, Kind, IsIf, ElseLine, EndifLine, OneLine, OpenedBy;
    if Kind(lines[n]) == If && d == |s'.stack| {
      i := n;
      JustOpened(lines, d);
    } else {
      i := MatchingIf(lines[..n], d);
      SameFirst(s, s', lines[n], d);
      StillOpen(lines, i, d, LevelAt(s, d), LevelAt(s', d));
    }
  }

  lemma JustOpened(lines: seq<string>, d: nat)
    requires lines != [] && Run(lines).Ok? && Kind(lines[|lines| - 1]) == If && d == |Run(lines).value.stack| >= 1
    ensures OpenedBy(lines, |lines| - 1, d, LevelAt(Run(lines).value, d))
  {
    hide MatchLine, Condition, Kind, IsIf, ElseLine, EndifLine, OneLine, Reachable, OpenLevel;
    var n := |lines| - 1;
    LevelsAreOpen(lines[..n]);
    Cases(lines[n]);
    assert lines[..n + 1] == lines;
  }

  lemma SameFirst(s: State, s': State, line: string, d: nat)
    requires Reachable(s) && Step(s, line) == Ok(s') && 1 <= d <= |s'.stack|
    requires !(Kind(line) == If && d == |s'.stack|)
    ensures d <= |s.stack| && LevelAt(s, d) != [] && LevelAt(s', d) != [] && LevelAt(s', d)[0] == LevelAt(s, d)[0]
  {
    Cases(line);
    hide MatchLine, Condition, Kind, IsIf, ElseLine, EndifLine, OneLine;
  }

  lemma StillOpen(lines: seq<string>, i: nat, d: nat, was: seq<Directive>, level: seq<Directive>)
    requires lines != [] && OpenedBy(lines[..|lines| - 1], i, d, was) && level != [] && was[0] == level[0]
    requires Depth(lines) >= d
    ensures OpenedBy(lines, i, d, level)
  {
    hide MatchLine, Condition, Kind, Depth;
    var n := |lines| - 1;
    assert lines[..n][..i] == lines[..i];
    forall j | i < j <= |lines| ensures Depth(lines[..j]) >= d {
      if j <= n { assert lines[..n][..j] == lines[..j]; } else { assert lines[..j] == lines; }
    }
  }

  /** Is there an #elif among the lines behind line i for the conditional at depth d? */
  predicate ElifAfter(lines: seq<string>, i: nat, d: nat) {
    exists j :: i < j < |lines| && ElifAt(lines, j, d)
  }

  predicate ElifAt(lines: seq<string>, j: nat, d: nat)
    requires j < |lines|
  {
    Kind(lines[j]) == Elif && Depth(lines[..j]) == d
  }

  /** Has the level had an #elif? */
  predicate HasElif(level: seq<Directive>) {
    exists k :: 1 <= k < |level| && level[k].command == "elif"
  }

  /** A level remembers an #elif if and only if there was one for its conditional. */
  lemma {:induction false} ElifRemembered(lines: seq<string>, d: nat, i: nat)
    requires Run(lines).Ok? && 1 <= d <= |Run(lines).value.stack|
    requires OpenedBy(lines, i, d, LevelAt(Run(lines).value, d))
    ensures HasElif(LevelAt(Run(lines).value, d)) <==> ElifAfter(lines, i, d)
  {
    var n := |lines| - 1;
    var s, s' := Run(lines[..n]).value, Run(lines).value;
    LevelsAreOpen(lines[..n]);
    Cases(lines[n]);
    assert lines[..n + 1] == lines;
    hide MatchLine, Condition, Kind, IsIf, ElseLine, EndifLine, OneLine, HasElif, ElifAfter, ElifAt;
    if Kind(lines[n]) == If && d == |s'.stack| {
      assert i == n by { OpenedLast(lines, i, d); }
      NoElifYet(lines, d);
    } else {
      SameFirst(s, s', lines[n], d);
      assert lines[..n][..i] == lines[..i];
      EarlierOpen(lines, i, d, LevelAt(s, d), LevelAt(s', d));
      ElifRemembered(lines[..n], d, i);
      OneMoreLine(lines, i, d);
      LevelGrows(s, s', lines[n], d);
    }
  }

  lemma OpenedLast(lines: seq<string>, i: nat, d: nat)
    requires lines != [] && Run(lines).Ok? && Kind(lines[|lines| - 1]) == If && d == |Run(lines).value.stack|
    requires OpenedBy(lines, i, d, LevelAt(Run(lines).value, d))
    ensures i == |lines| - 1
  {
    var n := |lines| - 1;
    LevelsAreOpen(lines[..n]);
    Cases(lines[n]);
    hide MatchLine, Condition, Kind, IsIf, ElseLine, EndifLine, OneLine;
    assert Depth(lines[..n]) == d - 1;
  }

  lemma NoElifYet(lines: seq<string>, d: nat)
    requires lines != [] && Run(lines).Ok? && Kind(lines[|lines| - 1]) == If && d == |Run(lines).value.stack|
    ensures !HasElif(LevelAt(Run(lines).value, d)) && !ElifAfter(lines, |lines| - 1, d)
  {
    Cases(lines[|lines| - 1]);
    hide MatchLine, Condition, Kind, IsIf, ElseLine, EndifLine, OneLine;
  }

  lemma EarlierOpen(lines: seq<string>, i: nat, d: nat, was: seq<Directive>, level: seq<Directive>)
    requires lines != [] && Run(lines).Ok? && OpenedBy(lines, i, d, level) && i < |lines| - 1
    requires was != [] && was[0] == level[0]
    ensures OpenedBy(lines[..|lines| - 1], i, d, was)
  {
    hide MatchLine, Condition, Kind, Depth;
    var n := |lines| - 1;
    assert lines[..n][..i] == lines[..i] && lines[..n][i] == lines[i];
    forall j | i < j <= n ensures Depth(lines[..n][..j]) >= d {
      assert lines[..n][..j] == lines[..j];
    }
  }

  lemma OneMoreLine(lines: seq<string>, i: nat, d: nat)
    requires lines != [] && i < |lines| - 1
    ensures ElifAfter(lines, i, d) <==> ElifAfter(lines[..|lines| - 1], i, d) || ElifAt(lines, |lines| - 1, d)
  {
    hide Kind, Depth;
    var n := |lines| - 1;
    forall j | i < j < n ensures ElifAt(lines[..n], j, d) <==> ElifAt(lines, j, d) {
      assert lines[..n][..j] == lines[..j];
    }
  }

  lemma LevelGrows(s: State, s': State, line: string, d: nat)
    requires Reachable(s) && Step(s, line) == Ok(s') && 1 <= d <= |s'.stack| && d <= |s.stack|
    requires !(Kind(line) == If && d == |s'.stack|)
    ensures HasElif(LevelAt(s', d)) <==> HasElif(LevelAt(s, d)) || (Kind(line) == Elif && |s.stack| == d)
  {
    Cases(line);
    hide MatchLine, Condition, Kind, IsIf, ElseLine, EndifLine, OneLine;
    var was, now := LevelAt(s, d), LevelAt(s', d);
    if now != was {
      assert now[..|was|] == was && |now| == |was| + 1;
      forall k | 1 <= k < |was| ensures was[k] == now[k] {}
      if Kind(line) == Elif { assert now[|was|].command == "elif"; }
    }
  }

  /** How many directives a level has, as far as the comments depend on it. */
  lemma LevelShape(level: seq<Directive>)
    requires OpenLevel(level)
    ensures !HasElif(level) <==> |level| == 1 || (|level| == 2 && level[1].command == "else")
    ensures level[|level| - 1].command != "else" ==> (!HasElif(level) <==> |level| == 1)
  {
    NotTwo();
    if |level| > 2 { assert level[1].command == "elif"; }
  }

  // ----- The lines that are written -----

  lemma TruncateOneLine(expr: string, width: nat)
    requires OneLine(expr)
    ensures OneLine(Truncate(expr, width))
  {
    if |expr| > width { TruncateFits(expr, width); }
  }

  lemma NegateOneLine(expr: string)
    requires OneLine(expr)
    ensures OneLine(Negate(expr))
  {
    StripOneLine(expr);
  }

  /** A generated line is one line, and the same directive. */
  lemma CommentIsDirective(fmt: Format, argument: string, command: string)
    requires IsFormat(fmt) && OneLine(argument)
    requires command == if fmt == ELSE_LINE then "else" else "endif"
    ensures var l := CommentedLine(fmt, argument, LINE_WIDTH);
            MatchLine(l).Match? && MatchLine(l).command == command && IsLine(l, false) && |l| <= LINE_WIDTH
  {
    hide CommentedLine, Truncate, MatchLine, OneLine;
    OneLineFormat(fmt);
    var x := CommentShape(fmt, argument, LINE_WIDTH);
    CommentMatches(fmt.pre, x + fmt.post, command);
    Filled(fmt, x);
  }

  lemma CommentShape(fmt: Format, argument: string, width: nat) returns (x: string)
    requires FormatOk(fmt, width) && OneLine(argument)
    ensures CommentedLine(fmt, argument, width) == Fill(fmt, x) && OneLine(x)
  {
    hide Truncate, OneLine;
    if |Fill(fmt, argument)| <= width {
      x := argument;
    } else {
      var room := width - |fmt.pre + fmt.post|;
      TruncateOneLine(argument, room);
      x := Truncate(argument, room);
    }
  }

  lemma Filled(fmt: Format, x: string)
    requires OneLine(x) && OneLine(fmt.pre) && IsLine(fmt.post, false)
    ensures IsLine(Fill(fmt, x), false) && Fill(fmt, x) == fmt.pre + (x + fmt.post)
  {
    var l := Fill(fmt, x);
    assert l[..|l| - 1] == fmt.pre + x + fmt.post[..|fmt.post| - 1];
  }

  lemma OneLineFormat(fmt: Format)
    requires IsFormat(fmt)
    ensures OneLine(fmt.pre) && IsLine(fmt.post, false) && FormatOk(fmt, LINE_WIDTH)
    ensures fmt.pre == if fmt == ELSE_LINE then "#else /* " else "#endif /* "
  {
  }

  lemma DirectiveMatches(l: string, command: string)
    requires command in COMMANDS && |l| > 1 + |command| && l[0] == '#' && l[1..1 + |command|] == command
    requires !Space(l[1]) && !WordChar(l[1 + |command|])
    ensures MatchLine(l).Match? && MatchLine(l).command == command
  {
    var k :| 0 <= k < |COMMANDS| && COMMANDS[k] == command;
    CommandWord(k);
    var n := 1 + |command|;
    forall x | 1 <= x < n ensures WordChar(l[x]) { assert l[x] == command[x - 1]; }
    WordIs(l, 1, n);
    AlternativeIsWord(l, 1, 0);
    hide Alternative, WordEnd;
  }

  lemma CommentMatches(pre: string, tail: string, command: string)
    requires (pre == "#else /* " && command == "else") || (pre == "#endif /* " && command == "endif")
    ensures MatchLine(pre + tail).Match? && MatchLine(pre + tail).command == command
  {
    hide MatchLine;
    var l, n := pre + tail, 1 + |command|;
    assert pre[1..n] == command && l[..|pre|] == pre;
    assert l[1..n] == pre[1..n] && l[0] == pre[0] && l[1] == pre[1] && l[n] == pre[n];
    assert COMMANDS[3] == "else" && COMMANDS[4] == "endif";
    DirectiveMatches(l, command);
  }

  /** The line written for a line: itself, or a line of at most LINE_WIDTH characters that is the same directive,
      #else or #endif. */
  predicate WrittenFor(line: string, l: string) {
    l == line || (|l| <= LINE_WIDTH && IsLine(l, false) && MatchLine(line).Match? && MatchLine(l).Match?
                  && MatchLine(l).command == MatchLine(line).command && Kind(line) in {Else, Endif})
  }

  lemma ElseWrites(cur: seq<Directive>, command: string, n: nat, line: string)
    requires cur != [] && OneLine(cur[0].rest) && MatchLine(line).Match? && MatchLine(line).command == command
    requires command == "else" ==> Kind(line) == Else
    ensures WrittenFor(line, ElseLine(cur, command, n, line))
  {
    hide CommentedLine, Negate, MatchLine, Kind, OneLine, IsLine;
    NegateOneLine(cur[0].rest);
    CommentIsDirective(ELSE_LINE, Negate(cur[0].rest), "else");
  }

  lemma Formats()
    ensures ENDIF_LINE != ELSE_LINE && ENDIF_OR_LINE != ELSE_LINE
  {
    assert |ENDIF_LINE.pre| == 10 && |ENDIF_OR_LINE.pre| == 10 && |ELSE_LINE.pre| == 9;
  }

  lemma EndifWrites(cur: seq<Directive>, n: nat, line: string)
    requires cur != [] && OneLine(cur[0].rest) && MatchLine(line).Match? && MatchLine(line).command == "endif"
    requires Kind(line) == Endif
    ensures WrittenFor(line, EndifLine(cur, n, line))
  {
    hide CommentedLine, Negate, MatchLine, Kind, OneLine, IsLine;
    Formats();
    CommentIsDirective(ENDIF_LINE, cur[0].rest, "endif");
    CommentIsDirective(ENDIF_OR_LINE, cur[0].rest, "endif");
  }

  lemma StepWrites(s: State, line: string)
    requires Reachable(s) && Step(s, line).Ok?
    ensures |Step(s, line).value.out| == |s.out| + 1 && Step(s, line).value.out[..|s.out|] == s.out
    ensures WrittenFor(line, Step(s, line).value.out[|s.out|])
  {
    Cases(line);
    var m := MatchLine(line);
    assert m.Match? && !IsIf(m.command) ==> s.cur != [] && OneLine(s.cur[0].rest);
    hide MatchLine, Kind, IsIf, Condition, ElseLine, EndifLine, OneLine;
    if m.Match? && !IsIf(m.command) {
      if m.command == "endif" {
        EndifWrites(s.cur, s.lineno + 1, line);
      } else {
        ElseWrites(s.cur, m.command, s.lineno + 1, line);
      }
    } else {
      assert WrittenFor(line, line);
    }
  }

  /** What was written for the first lines stays. */
  lemma {:induction false} OutStays(lines: seq<string>, k: nat)
    requires Run(lines).Ok? && k <= |lines|
    ensures Run(lines[..k]).Ok? && |Run(lines[..k]).value.out| == k <= |Run(lines).value.out|
    ensures Run(lines).value.out[..k] == Run(lines[..k]).value.out
    decreases |lines|
  {
    hide Step, Reachable;
    LevelsAreOpen(lines);
    if k == |lines| {
      assert lines[..k] == lines;
    } else {
      var n := |lines| - 1;
      assert lines[..n][..k] == lines[..k];
      OutStays(lines[..n], k);
      LevelsAreOpen(lines[..n]);
      StepWrites(Run(lines[..n]).value, lines[n]);
    }
  }

  /** The condition of an #if line. */
  function ConditionOf(line: string): string {
    if MatchLine(line).Match? then Condition(MatchLine(line).command, MatchLine(line).rest) else ""
  }

  /** What is written for an #endif is a comment with the condition of its #if, if and only if that is more than four
      lines away, with a mark if there is an #elif; and for an #else a comment with the negated condition, if and only
      if the #if is as far away and there is no #elif. */
  lemma CommentNamesIf(lines: seq<string>, k: nat) returns (i: nat)
    requires Run(lines).Ok? && k < |lines| && (Kind(lines[k]) == Endif || Kind(lines[k]) == Else)
    ensures |Run(lines).value.out| == |lines| && Run(lines[..k]).Ok? && i < k
    ensures var s := Run(lines[..k]).value; s.stack != [] && OpenedBy(lines[..k], i, |s.stack|, s.cur)
    ensures var chained := ElifAfter(lines[..k], i, |Run(lines[..k]).value.stack|);
            Run(lines).value.out[k] == Comment(lines[k], ConditionOf(lines[i]), k > i + LINE_OBVIOUSNESS_LIMIT, chained)
  {
    hide CommentedLine, Negate, Step, Run, MatchLine, Condition, Kind, OpenedBy, HasElif, ElifAfter;
    WrittenLine(lines, k);
    var s := Run(lines[..k]).value;
    i := MatchingIf(lines[..k], |s.stack|);
    ElifRemembered(lines[..k], |s.stack|, i);
    LevelShape(s.cur);
    assert s.cur[0].lineno == i + 1 && s.cur[0].rest == ConditionOf(lines[i]) && i < k by {
      FirstOf(lines, k, i, |s.stack|, s.cur);
    }
  }

  lemma FirstOf(lines: seq<string>, k: nat, i: nat, d: nat, level: seq<Directive>)
    requires k < |lines| && OpenedBy(lines[..k], i, d, level)
    ensures i < k && level != [] && level[0].lineno == i + 1 && level[0].rest == ConditionOf(lines[i])
  {
    hide Condition, MatchLine, Kind;
    assert lines[..k][i] == lines[i];
  }

  /** The line for an #else or #endif whose #if has condition c, and is far away or not. */
  function Comment(line: string, c: string, far: bool, chained: bool): string {
    if !far then line
    else if Kind(line) == Endif then CommentedLine(if chained then ENDIF_OR_LINE else ENDIF_LINE, c, LINE_WIDTH)
    else if chained then line else CommentedLine(ELSE_LINE, Negate(c), LINE_WIDTH)
  }

  lemma WrittenLine(lines: seq<string>, k: nat)
    requires Run(lines).Ok? && k < |lines| && (Kind(lines[k]) == Endif || Kind(lines[k]) == Else)
    ensures |Run(lines).value.out| == |lines| && Run(lines[..k]).Ok?
    ensures var s, l := Run(lines[..k]).value, Run(lines).value.out[k];
            && s.stack != [] && OpenLevel(s.cur)
            && (Kind(lines[k]) == Else ==> s.cur[|s.cur| - 1].command != "else")
            && l == if Kind(lines[k]) == Endif then EndifLine(s.cur, k + 1, lines[k])
                    else ElseLine(s.cur, "else", k + 1, lines[k])
  {
    hide Step, Run, MatchLine, Condition, Kind, ElseLine, EndifLine, Reachable, OpenLevel;
    OutStays(lines, k);
    OutStays(lines, k + 1);
    LevelsAreOpen(lines);
    LevelsAreOpen(lines[..k]);
    Turn(lines, k);
    StepLine(Run(lines[..k]).value, lines[k]);
    assert Run(lines).value.out[k] == Run(lines).value.out[..k + 1][k];
  }

  lemma StepLine(s: State, line: string)
    requires Reachable(s) && Step(s, line).Ok? && (Kind(line) == Endif || Kind(line) == Else)
    ensures s.stack != [] && OpenLevel(s.cur) && (Kind(line) == Else ==> s.cur[|s.cur| - 1].command != "else")
    ensures var n := s.lineno + 1;
            Step(s, line).value.out == s.out + [if Kind(line) == Endif then EndifLine(s.cur, n, line)
                                                else ElseLine(s.cur, "else", n, line)]
  {
    Cases(line);
    hide MatchLine, Condition, Kind, IsIf, ElseLine, EndifLine;
  }

  predicate AllWritten(lines: seq<string>, out: seq<string>) {
    |out| == |lines| && forall k :: 0 <= k < |lines| ==> WrittenFor(lines[k], out[k])
  }

  /** One line is written for each line. */
  lemma {:induction false} OneForOne(lines: seq<string>)
    requires Run(lines).Ok?
    ensures AllWritten(lines, Run(lines).value.out)
  {
    hide WrittenFor, Step, Reachable, AllWritten;
    if lines == [] {
      NoneWritten();
    } else {
      var n := |lines| - 1;
      OneForOne(lines[..n]);
      LevelsAreOpen(lines[..n]);
      var s := Run(lines[..n]).value;
      StepWrites(s, lines[n]);
      OneMore(lines[..n], s.out, lines[n], Step(s, lines[n]).value.out);
      assert lines == lines[..n] + [lines[n]];
    }
  }

  lemma NoneWritten()
    ensures AllWritten([], START.out)
  {
  }

  lemma OneMore(lines: seq<string>, was: seq<string>, line: string, out: seq<string>)
    requires AllWritten(lines, was) && |out| == |was| + 1 && out[..|was|] == was && WrittenFor(line, out[|was|])
    ensures AllWritten(lines + [line], out)
  {
    hide WrittenFor;
    assert out == was + [out[|was|]];
  }

  // ----- Idempotence -----

  /** Two levels that differ only in what follows a directive that is not the first. */
  predicate LikeLevel(a: seq<Directive>, b: seq<Directive>) {
    && |a| == |b| && (a != [] ==> a[0] == b[0])
    && forall k :: 0 <= k < |a| ==> a[k].command == b[k].command && a[k].lineno == b[k].lineno
  }

  predicate Like(s: State, t: State) {
    && |s.stack| == |t.stack| && (forall k :: 0 <= k < |s.stack| ==> LikeLevel(s.stack[k], t.stack[k]))
    && LikeLevel(s.cur, t.cur) && s.lineno == t.lineno && s.out == t.out
  }

  lemma ElseAgain(a: seq<Directive>, b: seq<Directive>, command: string, n: nat, line: string)
    requires LikeLevel(a, b) && a != []
    ensures ElseLine(b, command, n, ElseLine(a, command, n, line)) == ElseLine(a, command, n, line)
  {
    hide CommentedLine, Negate;
  }

  lemma EndifAgain(a: seq<Directive>, b: seq<Directive>, n: nat, line: string)
    requires LikeLevel(a, b) && a != []
    ensures EndifLine(b, n, EndifLine(a, n, line)) == EndifLine(a, n, line)
  {
    hide CommentedLine;
  }

  lemma LikePush(s: State, t: State, d: Directive, n: nat, l: string)
    requires Like(s, t)
    ensures Like(State(s.stack + [s.cur], [d], n, s.out + [l]), State(t.stack + [t.cur], [d], n, t.out + [l]))
  {
    hide LikeLevel;
    assert LikeLevel([d], [d]) by { SameLevel([d]); }
  }

  lemma SameLevel(a: seq<Directive>)
    ensures LikeLevel(a, a)
  {
  }

  lemma LikeGrow(s: State, t: State, d: Directive, e: Directive, n: nat, l: string)
    requires Like(s, t) && s.cur != [] && d.command == e.command && d.lineno == e.lineno
    ensures Like(State(s.stack, s.cur + [d], n, s.out + [l]), State(t.stack, t.cur + [e], n, t.out + [l]))
  {
  }

  lemma LikePop(s: State, t: State, n: nat, l: string)
    requires Like(s, t) && s.stack != []
    ensures var k := |s.stack| - 1;
            Like(State(s.stack[..k], s.stack[k], n, s.out + [l]), State(t.stack[..k], t.stack[k], n, t.out + [l]))
  {
    hide LikeLevel;
  }

  lemma StepAgain(s: State, t: State, line: string)
    requires Like(s, t) && Reachable(s) && Step(s, line).Ok?
    ensures |Step(s, line).value.out| == |s.out| + 1
    ensures var l := Step(s, line).value.out[|s.out|]; Step(t, l).Ok? && Like(Step(s, line).value, Step(t, l).value)
  {
    hide MatchLine, Kind, Condition, ElseLine, EndifLine, OneLine, WrittenFor, IsIf, Reachable, Like, LikeLevel;
    StepWrites(s, line);
    Cases(line);
    var m, n := MatchLine(line), s.lineno + 1;
    var l := Step(s, line).value.out[|s.out|];
    WrittenSays(line, l);
    LikeHas(s, t);
    if m.NoMatch? {
      LikeOut(s, t, n, line);
    } else if IsIf(m.command) {
      LikePush(s, t, Directive(m.command, Condition(m.command, m.rest), n), n, line);
    } else if m.command == "endif" {
      EndifAgain(s.cur, t.cur, n, line);
      LikePop(s, t, n, l);
    } else {
      ElseAgain(s.cur, t.cur, m.command, n, line);
      LikeGrow(s, t, Directive(m.command, m.rest, n), Directive(m.command, MatchLine(l).rest, n), n, l);
    }
  }

  lemma LikeHas(s: State, t: State)
    requires Like(s, t)
    ensures s.lineno == t.lineno && s.out == t.out && LikeLevel(s.cur, t.cur) && |s.stack| == |t.stack|
    ensures |s.cur| == |t.cur| && (s.cur != [] ==> s.cur[|s.cur| - 1].command == t.cur[|t.cur| - 1].command)
  {
  }

  lemma WrittenSays(line: string, l: string)
    requires WrittenFor(line, l)
    ensures l != line ==> MatchLine(line).Match? && MatchLine(l).Match? && MatchLine(l).command == MatchLine(line).command
    ensures l != line ==> Kind(line) == Else || Kind(line) == Endif
  {
  }

  lemma LikeOut(s: State, t: State, n: nat, l: string)
    requires Like(s, t)
    ensures Like(s.(lineno := n, out := s.out + [l]), t.(lineno := n, out := t.out + [l]))
  {
  }

  /** Translating what was translated changes nothing. */
  lemma {:induction false} RunAgain(lines: seq<string>)
    requires Run(lines).Ok?
    ensures Run(Run(lines).value.out).Ok? && Like(Run(lines).value, Run(Run(lines).value.out).value)
  {
    if lines != [] {
      var n := |lines| - 1;
      RunAgain(lines[..n]);
      LevelsAreOpen(lines[..n]);
      var s, out := Run(lines[..n]).value, Run(lines).value.out;
      StepWrites(s, lines[n]);
      StepAgain(s, Run(s.out).value, lines[n]);
      assert out[..|out| - 1] == s.out;
    }
  }

  lemma Idempotent(lines: seq<string>)
    requires Translation(lines).Ok?
    ensures Translation(Translation(lines).value) == Ok(Translation(lines).value)
  {
    RunAgain(lines);
  }

  // ----- Files -----

  /** translate on a file's text. */
  function TranslateText(text: string): Outcome<string> {
    match Translation(Lines(text))
    case Fail(p) => Fail(p)
    case Ok(out) => Ok(Join(out))
  }

  /** The lines of the result are the written ones, so the number of lines stays; a generated line is within the
      limit; and translating the result gives it back. */
  lemma TextIdempotent(text: string)
    requires TranslateText(text).Ok?
    ensures var r := TranslateText(text).value;
            && Lines(r) == Translation(Lines(text)).value && |Lines(r)| == |Lines(text)|
            && (forall k :: 0 <= k < |Lines(r)| ==> Lines(r)[k] == Lines(text)[k] || |Lines(r)[k]| <= LINE_WIDTH)
            && TranslateText(r) == Ok(r)
  {
    var lines := Lines(text);
    var out := Translation(lines).value;
    LinesAreLines(text);
    OneForOne(lines);
    forall k | 0 <= k < |out| ensures IsLine(out[k], k == |out| - 1) {
      assert WrittenFor(lines[k], out[k]) && IsLine(lines[k], k == |lines| - 1);
    }
    LinesOfJoin(out);
    Idempotent(lines);
  }
}
