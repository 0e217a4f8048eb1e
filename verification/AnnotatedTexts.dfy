/** What the annotator makes of whole texts, written out: the conditions it remembers, and the lines that it writes for a
    block with an #else, and for one with an #elif. */
module AnnotatedTexts {
  import opened Strings
  import opened Nesting
  import opened Annotate
  import opened Wrappers

  /** A nonempty string of word characters, such as the name of a macro. */
  predicate Name(s: string) { s != [] && forall k :: 0 <= k < |s| ==> WordChar(s[k]) }

  /** What stands behind a space, up to the end of the line. */
  lemma RestAt(line: string, n: nat, rest: string)
    requires n < |line| && line[n] == ' ' && line[n + 1..] == rest + "\n"
    requires OneLine(rest) && (rest != [] ==> !Space(rest[0]))
    ensures var r := SkipSpace(line, n); line[r..Index(line, '\n', r)] == rest
  {
    forall k | n + 1 <= k < |line| ensures line[k] == if k < |line| - 1 then rest[k - n - 1] else '\n' {
      assert line[k] == line[n + 1..][k - n - 1];
    }
    if rest != [] {
      assert SkipSpace(line, n) == n + 1;
      IndexIs(line, '\n', n + 1, |line| - 1);
      assert line[n + 1..|line| - 1] == line[n + 1..][..|rest|] == rest;
    }
  }

  /** A directive at the start of a line. */
  lemma MatchAt(line: string, w: string)
    requires w in COMMANDS && |line| > |w| + 1 && line[..|w| + 1] == "#" + w && !WordChar(line[|w| + 1])
    ensures var r := SkipSpace(line, |w| + 1); MatchLine(line) == Match(w, line[r..Index(line, '\n', r)])
  {
    hide SkipSpace, Index, Alternative, WordChar;
    WordAt(line, w);
  }

  /** A directive with a space in front of what it is about. */
  lemma MatchOf(w: string, rest: string)
    requires w in COMMANDS && OneLine(rest) && (rest != [] ==> !Space(rest[0]))
    ensures MatchLine("#" + w + " " + rest + "\n") == Match(w, rest)
  {
    hide MatchLine, SkipSpace, Index, Alternative, OneLine;
    var line := "#" + w + " " + rest + "\n";
    assert line[..|w| + 1] == "#" + w && line[|w| + 1] == ' ';
    MatchAt(line, w);
    assert line[|w| + 2..] == rest + "\n";
    RestAt(line, |w| + 1, rest);
  }

  /** A directive alone on its line. */
  lemma MatchAlone(w: string)
    requires w in COMMANDS
    ensures MatchLine("#" + w + "\n") == Match(w, "")
  {
    var line := "#" + w + "\n";
    assert line[..|w| + 1] == "#" + w && line[|w| + 1] == '\n' && |line| == |w| + 2;
    MatchAt(line, w);
  }

  /** The word behind the # of a line is found. */
  lemma WordAt(line: string, w: string)
    requires w in COMMANDS && |line| > |w| + 1 && line[..|w| + 1] == "#" + w && !WordChar(line[|w| + 1])
    ensures SkipSpace(line, 0) == 0 && line[0] == '#' && SkipSpace(line, 1) == 1 && Alternative(line, 1, 0) == Some(w)
  {
    var i :| 0 <= i < |COMMANDS| && COMMANDS[i] == w;
    CommandWord(i);
    forall k | 1 <= k < |w| + 1 ensures line[k] == w[k - 1] && WordChar(line[k]) {
      assert line[k] == line[..|w| + 1][k];
    }
    assert line[0] == line[..|w| + 1][0];
    WordIs(line, 1, |w| + 1);
    AlternativeIsWord(line, 1, 0);
    assert line[1..|w| + 1] == w;
  }

  /** A line whose first character that is no space is not a # is no directive. */
  lemma PlainLine(l: string)
    requires SkipSpace(l, 0) < |l| ==> l[SkipSpace(l, 0)] != '#'
    ensures Kind(l) == Plain
  {
  }

  lemma SlashAt(s: string, n: nat)
    requires StartsAt(s, n, "//") || StartsAt(s, n, "/*")
    ensures '/' in s
  {
    assert s[n] == s[n..n + 2][0];
  }

  /** Without a slash there is no comment to remove. */
  lemma NothingCut(s: string)
    requires s != [] && '/' !in s && !Space(s[0]) && !Space(s[|s| - 1])
    ensures Uncomment(s) == s
  {
    var n := UncommentCuts(s);
    if n < |s| {
      SlashAt(s, n);
    }
    assert s[..|s|] == s;
    Stripped(s);
  }

  lemma NameUncut(name: string)
    requires Name(name)
    ensures Uncomment(name) == name && OneLine(name) && ')' !in name && !Space(name[0])
    ensures Uncomment("defined(" + name + ")") == "defined(" + name + ")"
    ensures Uncomment("!defined(" + name + ")") == "!defined(" + name + ")"
  {
    NothingCut(name);
    NothingCut("defined(" + name + ")");
    NothingCut("!defined(" + name + ")");
  }

  /** The condition of an #ifdef line. */
  lemma IfdefCondition(name: string)
    requires Name(name)
    ensures ConditionOf("#ifdef " + name + "\n") == "defined(" + name + ")" && Kind("#ifdef " + name + "\n") == If
  {
    hide MatchLine, Uncomment;
    NameUncut(name);
    assert COMMANDS[1] == "ifdef";
    MatchOf("ifdef", name);
    assert "#" + "ifdef" + " " + name + "\n" == "#ifdef " + name + "\n";
  }

  /** And of an #ifndef line. */
  lemma IfndefCondition(name: string)
    requires Name(name)
    ensures ConditionOf("#ifndef " + name + "\n") == "!defined(" + name + ")" && Kind("#ifndef " + name + "\n") == If
  {
    hide MatchLine, Uncomment;
    NameUncut(name);
    assert COMMANDS[2] == "ifndef";
    MatchOf("ifndef", name);
    assert "#" + "ifndef" + " " + name + "\n" == "#ifndef " + name + "\n";
  }

  /** The condition of an #if line is what precedes the first start of a comment, without the spaces around it; a
      backslash at the end of the line is an ellipsis. */
  lemma IfCondition(c: string) returns (n: nat)
    requires OneLine(c) && c != [] && !Space(c[0])
    ensures Kind("#if " + c + "\n") == If
    ensures var t := if c[|c| - 1] == '\\' then c[..|c| - 1] + "..." else c;
            && n <= |t| && ConditionOf("#if " + c + "\n") == Strip(t[..n])
            && (n < |t| ==> StartsAt(t, n, "//") || StartsAt(t, n, "/*"))
            && forall k :: 0 <= k < n ==> !StartsAt(t, k, "//") && !StartsAt(t, k, "/*")
  {
    hide MatchLine, Uncomment, StartsAt;
    assert COMMANDS[0] == "if";
    MatchOf("if", c);
    assert "#" + "if" + " " + c + "\n" == "#if " + c + "\n";
    n := UncommentCuts(if c[|c| - 1] == '\\' then c[..|c| - 1] + "..." else c);
  }

  // ----- Blocks -----

  predicate AllPlain(ls: seq<string>) { forall k :: 0 <= k < |ls| ==> Kind(ls[k]) == Plain }

  lemma StepPlain(s: State, line: string)
    requires Kind(line) == Plain
    ensures Step(s, line) == Ok(s.(lineno := s.lineno + 1, out := s.out + [line]))
  {
    hide MatchLine;
    Cases(line);
  }

  /** Plain lines are written as they are. */
  lemma {:induction false} RunPlain(before: seq<string>, ls: seq<string>)
    requires Run(before).Ok? && AllPlain(ls)
    ensures var s := Run(before).value;
            Run(before + ls) == Ok(s.(lineno := s.lineno + |ls|, out := s.out + ls))
  {
    hide Step, Kind;
    if ls == [] {
      assert before + ls == before && Run(before).value.out + [] == Run(before).value.out;
    } else {
      var n := |ls| - 1;
      RunPlain(before, ls[..n]);
      RunLast(before + ls[..n], ls[n]);
      StepPlain(Run(before + ls[..n]).value, ls[n]);
      assert before + ls[..n] + [ls[n]] == before + ls;
      assert Run(before).value.out + ls[..n] + [ls[n]] == Run(before).value.out + ls;
    }
  }

  lemma RunLast(before: seq<string>, line: string)
    requires Run(before).Ok?
    ensures Run(before + [line]) == Step(Run(before).value, line)
  {
    hide Step;
    assert (before + [line])[..|before|] == before;
  }

  lemma OpensLevel(s: State, o: string)
    requires Kind(o) == If
    ensures MatchLine(o).Match?
    ensures Step(s, o) == Ok(State(s.stack + [s.cur], [Directive(MatchLine(o).command, ConditionOf(o), s.lineno + 1)],
                                   s.lineno + 1, s.out + [o]))
  {
    hide Condition, MatchLine;
    Cases(o);
  }

  lemma TakesElse(s: State, e: string)
    requires Kind(e) == Else && |s.cur| == 1 && s.cur[0].command != "else"
    ensures MatchLine(e).Match?
    ensures Step(s, e) == Ok(State(s.stack, s.cur + [Directive("else", MatchLine(e).rest, s.lineno + 1)], s.lineno + 1,
                                   s.out + [if s.lineno + 1 > s.cur[0].lineno + 4
                                            then CommentedLine(ELSE_LINE, Negate(s.cur[0].rest), 80) else e]))
  {
    hide Condition, MatchLine, Negate, CommentedLine;
    Cases(e);
  }

  lemma Closes(s: State, f: string)
    requires Kind(f) == Endif && s.stack != [] && (|s.cur| == 1 || (|s.cur| == 2 && s.cur[1].command == "else"))
    ensures Step(s, f) == Ok(State(s.stack[..|s.stack| - 1], s.stack[|s.stack| - 1], s.lineno + 1,
                                   s.out + [if s.lineno + 1 > s.cur[0].lineno + 4
                                            then CommentedLine(ENDIF_LINE, s.cur[0].rest, 80) else f]))
  {
    hide Condition, MatchLine, CommentedLine;
    Cases(f);
  }

  lemma TakesElif(s: State, e: string)
    requires Kind(e) == Elif && |s.cur| == 1 && s.cur[0].command != "else"
    ensures MatchLine(e).Match?
    ensures Step(s, e) == Ok(State(s.stack, s.cur + [Directive("elif", MatchLine(e).rest, s.lineno + 1)], s.lineno + 1,
                                   s.out + [e]))
  {
    hide Condition, MatchLine, Negate, CommentedLine;
    Cases(e);
  }

  lemma ClosesChained(s: State, f: string)
    requires Kind(f) == Endif && s.stack != [] && |s.cur| == 2 && s.cur[1].command == "elif"
    ensures Step(s, f) == Ok(State(s.stack[..|s.stack| - 1], s.stack[|s.stack| - 1], s.lineno + 1,
                                   s.out + [if s.lineno + 1 > s.cur[0].lineno + 4
                                            then CommentedLine(ENDIF_OR_LINE, s.cur[0].rest, 80) else f]))
  {
    hide Condition, MatchLine, CommentedLine;
    Cases(f);
  }

  /** The state behind the first line and the plain lines behind it. */
  lemma Opened(o: string, front: seq<string>)
    requires Kind(o) == If && AllPlain(front)
    ensures MatchLine(o).Match?
    ensures Run([o] + front) ==
            Ok(State([[]], [Directive(MatchLine(o).command, ConditionOf(o), 1)], 1 + |front|, [o] + front))
  {
    hide Condition, MatchLine, Step;
    RunLast([], o);
    FirstStep(o);
    assert [] + [o] == [o] && Run([]) == Ok(START);
    RunPlain([o], front);
  }

  lemma FirstStep(o: string)
    requires Kind(o) == If
    ensures MatchLine(o).Match?
    ensures Step(START, o) == Ok(State([[]], [Directive(MatchLine(o).command, ConditionOf(o), 1)], 1, [o]))
  {
    hide Condition, MatchLine, Step;
    OpensLevel(START, o);
    assert START.stack + [START.cur] == [[]] && START.out + [o] == [o];
  }

  /** A block with an #else: the #else line gets a comment from four lines between it and the #if on, the #endif line
      from three between them on, not counting the #else. */
  lemma ElseText(o: string, front: seq<string>, e: string, back: seq<string>, f: string)
    requires Kind(o) == If && AllPlain(front) && Kind(e) == Else && AllPlain(back) && Kind(f) == Endif
    ensures Translation([o] + front + [e] + back + [f]) ==
            Ok([o] + front + [if |front| >= 4 then CommentedLine(ELSE_LINE, Negate(ConditionOf(o)), 80) else e]
               + back + [if |front| + |back| >= 3 then CommentedLine(ENDIF_LINE, ConditionOf(o), 80) else f])
  {
    hide Condition, MatchLine, Negate, CommentedLine, ConditionOf, Step;
    Opened(o, front);
    RunLast([o] + front, e);
    TakesElse(Run([o] + front).value, e);
    RunPlain([o] + front + [e], back);
    RunLast([o] + front + [e] + back, f);
    Closes(Run([o] + front + [e] + back).value, f);
  }

  /** A block with an #elif: that line stays, and the comment of the #endif line has a mark. */
  lemma ElifText(o: string, front: seq<string>, e: string, back: seq<string>, f: string)
    requires Kind(o) == If && AllPlain(front) && Kind(e) == Elif && AllPlain(back) && Kind(f) == Endif
    ensures Translation([o] + front + [e] + back + [f]) ==
            Ok([o] + front + [e] + back
               + [if |front| + |back| >= 3 then CommentedLine(ENDIF_OR_LINE, ConditionOf(o), 80) else f])
  {
    hide Condition, MatchLine, Negate, CommentedLine, ConditionOf, Step;
    Opened(o, front);
    RunLast([o] + front, e);
    TakesElif(Run([o] + front).value, e);
    RunPlain([o] + front + [e], back);
    RunLast([o] + front + [e] + back, f);
    ClosesChained(Run([o] + front + [e] + back).value, f);
  }

  /** A block with neither. */
  lemma EndifText(o: string, front: seq<string>, f: string)
    requires Kind(o) == If && AllPlain(front) && Kind(f) == Endif
    ensures Translation([o] + front + [f]) ==
            Ok([o] + front + [if |front| >= 4 then CommentedLine(ENDIF_LINE, ConditionOf(o), 80) else f])
  {
    hide Condition, MatchLine, Negate, CommentedLine, ConditionOf, Step;
    Opened(o, front);
    RunLast([o] + front, f);
    Closes(Run([o] + front).value, f);
  }

  /** A block with an #else inside a block. */
  lemma NestedText(o: string, front: seq<string>, o2: string, front2: seq<string>, e: string, back2: seq<string>,
                   f2: string, f: string)
    requires Kind(o) == If && AllPlain(front) && Kind(o2) == If && AllPlain(front2)
    requires Kind(e) == Else && AllPlain(back2) && Kind(f2) == Endif && Kind(f) == Endif
    ensures Translation([o] + front + [o2] + front2 + [e] + back2 + [f2] + [f]) ==
            Ok([o] + front + [o2] + front2
               + [if |front2| >= 4 then CommentedLine(ELSE_LINE, Negate(ConditionOf(o2)), 80) else e]
               + back2 + [if |front2| + |back2| >= 3 then CommentedLine(ENDIF_LINE, ConditionOf(o2), 80) else f2]
               + [if |front| + |front2| + |back2| >= 1 then CommentedLine(ENDIF_LINE, ConditionOf(o), 80) else f])
  {
    hide Condition, MatchLine, Negate, CommentedLine, ConditionOf, Step;
    Opened(o, front);
    var d := Directive(MatchLine(o).command, ConditionOf(o), 1);
    RunLast([o] + front, o2);
    OpensLevel(Run([o] + front).value, o2);
    RunPlain([o] + front + [o2], front2);
    var s := Run([o] + front + [o2] + front2).value;
    RunLast([o] + front + [o2] + front2, e);
    TakesElse(s, e);
    RunPlain([o] + front + [o2] + front2 + [e], back2);
    var t := Run([o] + front + [o2] + front2 + [e] + back2).value;
    RunLast([o] + front + [o2] + front2 + [e] + back2, f2);
    Closes(t, f2);
    var u := Run([o] + front + [o2] + front2 + [e] + back2 + [f2]).value;
    RunLast([o] + front + [o2] + front2 + [e] + back2 + [f2], f);
    assert u.cur == [d];
    Closes(u, f);
  }

  // ----- The comments, letter by letter -----

  /** The end of a condition defined(name) or !defined(name) in a comment: of a name of more than k characters, three
      are left out for the dots. */
  function Shown(name: string, k: nat): string
    requires k >= 3
  {
    if |name| <= k then name + ")" else name[..k - 3] + "...)"
  }

  /** The beginnings of such conditions. */
  predicate Opening(p: string) { p == "defined(" || p == "!defined(" }

  lemma OneParen(p: string, s: string)
    requires Opening(p) && (forall k :: 0 <= k < |s| ==> WordChar(s[k]))
    ensures CloseParensNeeded(p + s + "...") == 1
  {
    CountJoin(p + s, "...", '(');
    CountJoin(p + s, "...", ')');
    CountJoin(p, s, '(');
    CountJoin(p, s, ')');
    NoParens(s);
    Dots();
    OpeningParens();
  }

  lemma {:induction false} NoParens(s: string)
    requires forall k :: 0 <= k < |s| ==> WordChar(s[k])
    ensures Count(s, '(') == Count(s, ')') == 0
  {
    if s != [] { NoParens(s[..|s| - 1]); }
  }

  lemma OpeningParens()
    ensures CloseParensNeeded("defined(") == CloseParensNeeded("!defined(") == 1
  {
    NoParens("defined");
    CountJoin("defined", "(", '(');
    CountJoin("defined", "(", ')');
    CountJoin("!", "defined(", '(');
    CountJoin("!", "defined(", ')');
    assert "defined" + "(" == "defined(" && "!" + "defined(" == "!defined(";
  }

  /** A condition that is too long loses the end of its name, but not its parenthesis. */
  lemma ShortName(p: string, name: string, width: nat)
    requires Opening(p) && Name(name) && |p| + |name| + 1 > width >= |p| + 4
    ensures Truncate(p + name + ")", width) == p + name[..width - |p| - 4] + "...)"
  {
    hide Truncated, Name;
    var e, k := p + name + ")", width - |p| - 4;
    var n := |e| + 3 - width;
    CutShort(p, name, k);
    CutShort(p, name, k + 1);
    assert n == |e| - |p| - (k + 1) && Truncate(e, width) == TruncateFrom(e, width, n);
    assert TruncateFrom(e, width, n) == TruncateFrom(e, width, n + 1) == Truncated(e, n + 1);
  }

  /** A cut inside the name. */
  lemma CutShort(p: string, name: string, k: nat)
    requires Opening(p) && Name(name) && k <= |name|
    ensures var e := p + name + ")"; Truncated(e, |e| - |p| - k) == p + name[..k] + "...)"
  {
    hide CloseParensNeeded;
    var e := p + name + ")";
    assert e[..|p| + k] == p + name[..k];
    OneParen(p, name[..k]);
    assert Repeat(')', 1) == ")";
  }

  /** A comment with such a condition. */
  lemma CommentOf(fmt: Format, p: string, name: string)
    requires IsFormat(fmt) && Opening(p) && Name(name)
    ensures var k := 79 - |fmt.pre| - |fmt.post| - |p|;
            k >= 3 && CommentedLine(fmt, p + name + ")", 80) == fmt.pre + p + Shown(name, k) + fmt.post
  {
    hide CommentedLine, Name, Shown;
    FormatSizes(fmt);
    assert |p| <= 9;
    hide IsFormat;
    FilledWith(fmt, p, name);
  }

  lemma FormatSizes(fmt: Format)
    requires IsFormat(fmt)
    ensures |fmt.pre| <= 10 && |fmt.post| <= 11 && FormatOk(fmt, 80)
  {
  }

  lemma FilledWith(fmt: Format, p: string, name: string)
    requires |fmt.pre| <= 10 && |fmt.post| <= 11 && FormatOk(fmt, 80) && Opening(p) && |p| <= 9 && Name(name)
    ensures var k := 79 - |fmt.pre| - |fmt.post| - |p|;
            k >= 3 && CommentedLine(fmt, p + name + ")", 80) == fmt.pre + p + Shown(name, k) + fmt.post
  {
    hide Truncate, Name, Opening;
    var room := 80 - |fmt.pre + fmt.post|;
    if |name| > room - |p| - 1 {
      ShortName(p, name, room);
      assert name[..room - |p| - 4] + "...)" == Shown(name, room - |p| - 1);
    }
  }

  /** What the annotator makes of an #ifdef with an #else. */
  lemma IfdefText(name: string, front: seq<string>, back: seq<string>)
    requires Name(name) && AllPlain(front) && AllPlain(back)
    ensures Translation(["#ifdef " + name + "\n"] + front + ["#else\n"] + back + ["#endif\n"]) ==
            Ok(["#ifdef " + name + "\n"] + front
               + [if |front| >= 4 then "#else /* !defined(" + Shown(name, 57) + " */\n" else "#else\n"] + back
               + [if |front| + |back| >= 3 then "#endif /* defined(" + Shown(name, 57) + " */\n" else "#endif\n"])
  {
    hide ConditionOf, Kind, Negate, CommentedLine, Translation, Name, Uncomment, Shown;
    IfdefCondition(name);
    NameUncut(name);
    NegateDefined(name);
    Alone();
    CommentOf(ELSE_LINE, "!defined(", name);
    CommentOf(ENDIF_LINE, "defined(", name);
    ElseText("#ifdef " + name + "\n", front, "#else\n", back, "#endif\n");
    assert "#else /* " + "!defined(" == "#else /* !defined(" && "#endif /* " + "defined(" == "#endif /* defined(";
  }

  /** And of an #ifndef. */
  lemma IfndefText(name: string, front: seq<string>, back: seq<string>)
    requires Name(name) && AllPlain(front) && AllPlain(back)
    ensures Translation(["#ifndef " + name + "\n"] + front + ["#else\n"] + back + ["#endif\n"]) ==
            Ok(["#ifndef " + name + "\n"] + front
               + [if |front| >= 4 then "#else /* defined(" + Shown(name, 58) + " */\n" else "#else\n"] + back
               + [if |front| + |back| >= 3 then "#endif /* !defined(" + Shown(name, 56) + " */\n" else "#endif\n"])
  {
    hide ConditionOf, Kind, Negate, CommentedLine, Translation, Name, Uncomment, Shown;
    IfndefCondition(name);
    NameUncut(name);
    NegateDefined(name);
    Alone();
    CommentOf(ELSE_LINE, "defined(", name);
    CommentOf(ENDIF_LINE, "!defined(", name);
    ElseText("#ifndef " + name + "\n", front, "#else\n", back, "#endif\n");
    assert "#else /* " + "defined(" == "#else /* defined(" && "#endif /* " + "!defined(" == "#endif /* !defined(";
  }

  /** And of one with an #elif, whose line is any. */
  lemma IfdefElifText(name: string, front: seq<string>, e: string, back: seq<string>)
    requires Name(name) && AllPlain(front) && Kind(e) == Elif && AllPlain(back)
    ensures Translation(["#ifdef " + name + "\n"] + front + [e] + back + ["#endif\n"]) ==
            Ok(["#ifdef " + name + "\n"] + front + [e] + back
               + [if |front| + |back| >= 3 then "#endif /* defined(" + Shown(name, 50) + " || ... */\n" else "#endif\n"])
  {
    hide ConditionOf, Kind, Negate, CommentedLine, Translation, Name, Uncomment, Shown;
    IfdefCondition(name);
    Alone();
    CommentOf(ENDIF_OR_LINE, "defined(", name);
    ElifText("#ifdef " + name + "\n", front, e, back, "#endif\n");
    assert "#endif /* " + "defined(" == "#endif /* defined(";
  }

  lemma Alone()
    ensures Kind("#else\n") == Else && Kind("#endif\n") == Endif
  {
    hide MatchLine;
    assert COMMANDS[3] == "else" && COMMANDS[4] == "endif";
    MatchAlone("else");
    MatchAlone("endif");
    assert "#" + "else" + "\n" == "#else\n" && "#" + "endif" + "\n" == "#endif\n";
  }

  /** An #elif line, with any condition. */
  lemma ElifLine(c: string)
    requires OneLine(c) && c != [] && !Space(c[0])
    ensures Kind("#elif " + c + "\n") == Elif
  {
    hide MatchLine;
    assert COMMANDS[5] == "elif";
    MatchOf("elif", c);
    assert "#" + "elif" + " " + c + "\n" == "#elif " + c + "\n";
  }

  /** A condition on one line without comments and closing parentheses, and without spaces around it. */
  predicate Simple(c: string) {
    c != [] && '/' !in c && ')' !in c && OneLine(c) && !Space(c[0]) && !Space(c[|c| - 1]) && c[|c| - 1] != '\\'
  }

  lemma SimpleCondition(c: string)
    requires Simple(c)
    ensures Kind("#if " + c + "\n") == If && ConditionOf("#if " + c + "\n") == c && Negate(c) == "!(" + c + ")"
  {
    hide ConditionOf, Kind, Negate;
    Stripped(c);
    NegateTwice(c);
    var n := IfCondition(c);
    if n < |c| { SlashAt(c, n); }
    assert c[..|c|] == c;
  }

  /** The comments for such a condition. */
  lemma SimpleComments(c: string)
    requires Simple(c) && |c| <= 64
    ensures CommentedLine(ELSE_LINE, Negate(c), 80) == "#else /* !(" + c + ") */\n"
    ensures CommentedLine(ENDIF_LINE, c, 80) == "#endif /* " + c + " */\n"
  {
    hide Negate, Truncate;
    SimpleCondition(c);
    assert "#else /* " + ("!(" + c + ")") + " */\n" == "#else /* !(" + c + ") */\n";
  }

  /** An #if with an #else inside an #ifdef, such as the script explains itself with. */
  lemma NestedIfdefText(name: string, front: seq<string>, c: string, front2: seq<string>, back2: seq<string>)
    requires Name(name) && AllPlain(front) && Simple(c) && |c| <= 64 && AllPlain(front2) && AllPlain(back2)
    ensures Translation(["#ifdef " + name + "\n"] + front + ["#if " + c + "\n"] + front2 + ["#else\n"] + back2
                        + ["#endif\n"] + ["#endif\n"]) ==
            Ok(["#ifdef " + name + "\n"] + front + ["#if " + c + "\n"] + front2
               + [if |front2| >= 4 then "#else /* !(" + c + ") */\n" else "#else\n"] + back2
               + [if |front2| + |back2| >= 3 then "#endif /* " + c + " */\n" else "#endif\n"]
               + [if |front| + |front2| + |back2| >= 1 then "#endif /* defined(" + Shown(name, 57) + " */\n"
                  else "#endif\n"])
  {
    hide ConditionOf, Kind, Negate, CommentedLine, Translation, Name, Uncomment, Shown, Simple;
    IfdefCondition(name);
    SimpleCondition(c);
    SimpleComments(c);
    Alone();
    CommentOf(ENDIF_LINE, "defined(", name);
    NestedText("#ifdef " + name + "\n", front, "#if " + c + "\n", front2, "#else\n", back2, "#endif\n", "#endif\n");
    assert "#endif /* " + "defined(" == "#endif /* defined(";
  }
}
