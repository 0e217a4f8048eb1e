/** The string functions that the annotator needs. */
module Strings {

  /** What \s matches and str.strip() strips, of the ASCII characters. */
  predicate Space(c: char) {
    '\t' <= c <= '\r' || '\U{1c}' <= c <= ' '
  }

  /** What \w matches, of the ASCII characters. */
  predicate WordChar(c: char) {
    'a' <= c <= 'z' || 'A' <= c <= 'Z' || '0' <= c <= '9' || c == '_'
  }

  /** The greedy \s* from i on: where it ends. */
  function SkipSpace(s: string, i: nat): (r: nat)
    requires i <= |s|
    ensures i <= r <= |s| && (r < |s| ==> !Space(s[r]))
    decreases |s| - i
  {
    if i < |s| && Space(s[i]) then SkipSpace(s, i + 1) else i
  }

  /** Where a run of word characters ends. */
  function WordEnd(s: string, i: nat): (r: nat)
    requires i <= |s|
    ensures i <= r <= |s| && (r < |s| ==> !WordChar(s[r])) && forall k :: i <= k < r ==> WordChar(s[k])
    decreases |s| - i
  {
    if i < |s| && WordChar(s[i]) then WordEnd(s, i + 1) else i
  }

  /** The first c from i on, or the end. */
  function Index(s: string, c: char, i: nat): (r: nat)
    requires i <= |s|
    ensures i <= r <= |s| && c !in s[i..r] && (r < |s| ==> s[r] == c)
    decreases |s| - i
  {
    if i == |s| || s[i] == c then i else Index(s, c, i + 1)
  }

  /** Does t stand at place i of s? */
  predicate StartsAt(s: string, i: nat, t: string) {
    i + |t| <= |s| && s[i..i + |t|] == t
  }

  /** re.sub('t.*', '', s), for a string without line breaks: s up to the first t. */
  function CutAt(s: string, t: string, i: nat): string
    requires i <= |s|
    decreases |s| - i
  {
    if i == |s| || StartsAt(s, i, t) then s[..i] else CutAt(s, t, i + 1)
  }

  lemma {:induction false} CutIs(s: string, t: string, i: nat) returns (n: nat)
    requires i <= |s|
    ensures i <= n <= |s| && CutAt(s, t, i) == s[..n] && (n < |s| ==> StartsAt(s, n, t))
    ensures forall k :: i <= k < n ==> !StartsAt(s, k, t)
    decreases |s| - i
  {
    if i == |s| || StartsAt(s, i, t) {
      n := i;
    } else {
      n := CutIs(s, t, i + 1);
    }
  }

  function StripEnd(s: string): string {
    if s != [] && Space(s[|s| - 1]) then StripEnd(s[..|s| - 1]) else s
  }

  /** str.strip() */
  function Strip(s: string): string { StripEnd(s[SkipSpace(s, 0)..]) }

  function Count(s: string, c: char): nat {
    if s == [] then 0 else Count(s[..|s| - 1], c) + if s[|s| - 1] == c then 1 else 0
  }

  lemma {:induction false} CountJoin(s: string, t: string, c: char)
    ensures Count(s + t, c) == Count(s, c) + Count(t, c)
  {
    if t == [] {
      assert s + t == s;
    } else {
      assert (s + t)[..|s + t| - 1] == s + t[..|t| - 1];
      CountJoin(s, t[..|t| - 1], c);
    }
  }

  /** c * n, which is empty for a negative n. */
  function Repeat(c: char, n: int): (r: string)
    ensures |r| == (if n < 0 then 0 else n) && forall k :: 0 <= k < |r| ==> r[k] == c
  {
    if n <= 0 then [] else Repeat(c, n - 1) + [c]
  }

  lemma {:induction false} CountRepeat(c: char, n: int, d: char)
    ensures Count(Repeat(c, n), d) == if n > 0 && c == d then n else 0
    decreases n
  {
    if n > 0 { CountRepeat(c, n - 1, d); }
  }

  /** No line break in it. */
  predicate OneLine(s: string) { '\n' !in s }

  lemma {:induction false} StripEndOneLine(s: string)
    requires OneLine(s)
    ensures OneLine(StripEnd(s))
  {
    if s != [] && Space(s[|s| - 1]) { StripEndOneLine(s[..|s| - 1]); }
  }

  lemma {:induction false} CutOneLine(s: string, t: string, i: nat)
    requires OneLine(s) && i <= |s|
    ensures OneLine(CutAt(s, t, i))
    decreases |s| - i
  {
    if i < |s| && !StartsAt(s, i, t) { CutOneLine(s, t, i + 1); }
  }

  /** A text and its lines: all but the last end with a line break, which occurs nowhere else in them. */
  function Lines(s: string): seq<string>
    decreases |s|
  {
    if s == [] then [] else
      var n := Index(s, '\n', 0);
      if n == |s| then [s] else [s[..n + 1]] + Lines(s[n + 1..])
  }

  function Join(ls: seq<string>): string {
    if ls == [] then [] else ls[0] + Join(ls[1..])
  }

  predicate IsLine(l: string, last: bool) {
    l != [] && OneLine(l[..|l| - 1]) && (!last ==> l[|l| - 1] == '\n')
  }

  predicate AreLines(ls: seq<string>) {
    forall k :: 0 <= k < |ls| ==> IsLine(ls[k], k == |ls| - 1)
  }

  lemma {:induction false} LinesAreLines(s: string)
    ensures AreLines(Lines(s)) && Join(Lines(s)) == s
    decreases |s|
  {
    if s != [] {
      var n := Index(s, '\n', 0);
      if n == |s| {
        assert s[0..n] == s && Join([s]) == s + Join([s][1..]);
      } else {
        LinesAreLines(s[n + 1..]);
        assert s[..n + 1][..n] == s[0..n] && s == s[..n + 1] + s[n + 1..];
        assert Lines(s)[1..] == Lines(s[n + 1..]);
      }
    }
  }

  lemma {:induction false} LinesOfJoin(ls: seq<string>)
    requires AreLines(ls)
    ensures Lines(Join(ls)) == ls
  {
    if ls != [] {
      var l, rest, s := ls[0], ls[1..], Join(ls);
      LinesOfJoin(rest);
      IndexIn(l, Join(rest));
      if rest == [] {
        assert s == l;
        if l[|l| - 1] == '\n' { assert s[..|l|] == l && s[|l|..] == []; }
      } else {
        assert s[..|l|] == l && s[|l|..] == Join(rest);
      }
    }
  }

  /** The first line break of a line and what follows is the line's. */
  lemma IndexIn(l: string, rest: string)
    requires l != [] && OneLine(l[..|l| - 1])
    ensures l[|l| - 1] == '\n' ==> Index(l + rest, '\n', 0) == |l| - 1
    ensures l[|l| - 1] != '\n' && rest == [] ==> Index(l + rest, '\n', 0) == |l|
  {
    var s := l + rest;
    var n := Index(s, '\n', 0);
    forall k | 0 <= k < |l| - 1 ensures s[k] != '\n' { assert s[k] == l[..|l| - 1][k]; }
    if n > |l| - 1 { assert s[0..n][|l| - 1] == l[|l| - 1]; }
  }
}
