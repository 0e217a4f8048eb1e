/** When conditional directives are well nested: a grammar, and a stack that recognises it. */
module Nesting {
  import opened Wrappers

  /** A line: #if, #ifdef or #ifndef; #elif; #else; #endif; any other. */
  datatype Cmd = If | Elif | Else | Endif | Plain

  // ----- The grammar -----

  datatype Block = Text | Cond(arms: seq<Arm>)

  /** A directive and what is under it. */
  datatype Arm = Arm(cmd: Cmd, body: seq<Block>)

  /** A conditional begins with an #if, goes on with #elif, and may end with one #else. */
  ghost predicate Proper(bs: seq<Block>) {
    forall i :: 0 <= i < |bs| ==> bs[i].Cond? ==> ProperArms(bs[i].arms, true)
  }

  ghost predicate ProperArms(arms: seq<Arm>, complete: bool) {
    && (complete ==> arms != [])
    && forall i :: 0 <= i < |arms| ==>
      && Proper(arms[i].body)
      && (if i == 0 then arms[i].cmd == If
          else arms[i].cmd == Elif || (arms[i].cmd == Else && complete && i == |arms| - 1))
  }

  ghost function Spell(bs: seq<Block>): seq<Cmd> {
    if bs == [] then [] else Spell(bs[..|bs| - 1]) + SpellOne(bs[|bs| - 1])
  }

  ghost function SpellOne(b: Block): seq<Cmd> {
    if b.Text? then [Plain] else SpellArms(b.arms) + [Endif]
  }

  ghost function SpellArms(arms: seq<Arm>): seq<Cmd> {
    if arms == [] then [] else
      SpellArms(arms[..|arms| - 1]) + [arms[|arms| - 1].cmd] + Spell(arms[|arms| - 1].body)
  }

  ghost predicate WellNested(cmds: seq<Cmd>) {
    exists bs :: Proper(bs) && Spell(bs) == cmds
  }

  // ----- The stack: for each open conditional, whether its #else has been seen -----

  function Move(st: seq<bool>, c: Cmd): Option<seq<bool>> {
    var n := |st|;
    match c
    case Plain => Some(st)
    case If => Some(st + [false])
    case Elif => if n > 0 && !st[n - 1] then Some(st) else None
    case Else => if n > 0 && !st[n - 1] then Some(st[..n - 1] + [true]) else None
    case Endif => if n > 0 then Some(st[..n - 1]) else None
  }

  function Moves(st: seq<bool>, cmds: seq<Cmd>): Option<seq<bool>> {
    if cmds == [] then Some(st) else
      match Moves(st, cmds[..|cmds| - 1])
      case None => None
      case Some(st') => Move(st', cmds[|cmds| - 1])
  }

  lemma {:induction false} MovesOn(st: seq<bool>, a: seq<Cmd>, b: seq<Cmd>)
    ensures Moves(st, a + b) == if Moves(st, a).None? then None else Moves(Moves(st, a).value, b)
  {
    if b == [] {
      assert a + b == a;
    } else {
      assert (a + b)[..|a + b| - 1] == a + b[..|b| - 1];
      MovesOn(st, a, b[..|b| - 1]);
    }
  }

  /** What the grammar spells leaves the stack as it was. */
  lemma {:induction false} SpelledIsAccepted(st: seq<bool>, bs: seq<Block>)
    requires Proper(bs)
    ensures Moves(st, Spell(bs)) == Some(st)
    decreases bs, |bs|, 0
  {
    if bs == [] {
      NoArms();
      MovesNone(st);
    } else {
      ProperSplit(bs);
      hide Proper, ProperArms, Moves, SpellArms;
      var n := |bs| - 1;
      SpelledIsAccepted(st, bs[..n]);
      MovesOn(st, Spell(bs[..n]), SpellOne(bs[n]));
      if bs[n].Cond? {
        ArmsAreAccepted(st, bs[n].arms, true);
        MovesOne(st, SpellArms(bs[n].arms), Endif);
      } else {
        MovesNone(st);
        MovesOne(st, [], Plain);
      }
    }
  }

  /** Arms open one conditional. */
  lemma {:induction false} ArmsAreAccepted(st: seq<bool>, arms: seq<Arm>, complete: bool)
    requires ProperArms(arms, complete) && arms != []
    ensures Moves(st, SpellArms(arms)).Some?
    ensures var r := Moves(st, SpellArms(arms)).value;
            |r| == |st| + 1 && r[..|st|] == st && (r[|st|] <==> arms[|arms| - 1].cmd == Else)
    decreases arms, |arms|, 1
  {
    ProperLast(arms, complete);
    hide Proper, ProperArms, Spell, SpellArms, Moves;
    var n := |arms| - 1;
    var front, last := SpellArms(arms[..n]), arms[n];
    assert arms == arms[..n] + [last];
    ArmsMore(arms[..n], last);
    if n > 0 {
      ArmsAreAccepted(st, arms[..n], false);
    } else {
      NoArms();
      MovesNone(st);
    }
    MovesOne(st, front, last.cmd);
    MovesOn(st, front + [last.cmd], Spell(last.body));
    SpelledIsAccepted(Moves(st, front + [last.cmd]).value, last.body);
  }

  lemma MovesNone(st: seq<bool>)
    ensures Moves(st, []) == Some(st)
  {
  }

  lemma MovesOne(st: seq<bool>, a: seq<Cmd>, c: Cmd)
    ensures Moves(st, a + [c]) == if Moves(st, a).None? then None else Move(Moves(st, a).value, c)
  {
    assert (a + [c])[..|a|] == a;
  }

  lemma ProperLast(arms: seq<Arm>, complete: bool)
    requires ProperArms(arms, complete) && arms != []
    ensures var n := |arms| - 1;
            && Proper(arms[n].body) && ProperArms(arms[..n], false)
            && if n == 0 then arms[n].cmd == If
               else (arms[n].cmd == Elif || arms[n].cmd == Else) && arms[n - 1].cmd != Else
  {
    hide Proper;
  }

  lemma ProperMore(arms: seq<Arm>, a: Arm, complete: bool)
    requires ProperArms(arms, false) && Proper(a.body)
    requires if arms == [] then a.cmd == If else a.cmd == Elif || (a.cmd == Else && complete)
    ensures ProperArms(arms + [a], complete)
  {
    hide Proper;
  }

  lemma ProperJoin(bs: seq<Block>, b: Block)
    requires Proper(bs) && (b.Cond? ==> ProperArms(b.arms, true))
    ensures Proper(bs + [b])
  {
    hide ProperArms;
  }

  lemma ProperSplit(bs: seq<Block>)
    requires Proper(bs) && bs != []
    ensures Proper(bs[..|bs| - 1]) && (bs[|bs| - 1].Cond? ==> ProperArms(bs[|bs| - 1].arms, true) && bs[|bs| - 1].arms != [])
  {
  }

  // ----- And what the stack accepts is spelled by the grammar -----

  /** An open conditional: the blocks before it, its arms that are complete, and the directive of the open one. */
  datatype Frame = Frame(before: seq<Block>, arms: seq<Arm>, cmd: Cmd)

  ghost function SpellOpen(fs: seq<Frame>, cur: seq<Block>): seq<Cmd> {
    SpellFrames(fs) + Spell(cur)
  }

  ghost function SpellFrames(fs: seq<Frame>): seq<Cmd> {
    if fs == [] then [] else
      var f := fs[|fs| - 1];
      SpellFrames(fs[..|fs| - 1]) + Spell(f.before) + SpellArms(f.arms) + [f.cmd]
  }

  ghost predicate ProperFrame(f: Frame) {
    && Proper(f.before) && ProperArms(f.arms, false)
    && if f.arms == [] then f.cmd == If else f.cmd == Elif || f.cmd == Else
  }

  /** The frames are those of the stack. */
  ghost predicate Fits(fs: seq<Frame>, st: seq<bool>) {
    |fs| == |st| && forall i :: 0 <= i < |fs| ==> ProperFrame(fs[i]) && (st[i] <==> fs[i].cmd == Else)
  }

  lemma {:induction false} AcceptedIsSpelled(cmds: seq<Cmd>) returns (fs: seq<Frame>, cur: seq<Block>)
    requires Moves([], cmds).Some?
    ensures Fits(fs, Moves([], cmds).value) && Proper(cur) && SpellOpen(fs, cur) == cmds
  {
    if cmds == [] {
      fs, cur := [], [];
    } else {
      var n := |cmds| - 1;
      var fs0, cur0 := AcceptedIsSpelled(cmds[..n]);
      hide Proper, ProperArms, SpellFrames;
      assert cmds == SpellOpen(fs0, cur0) + [cmds[n]];
      fs, cur := Extend(fs0, Moves([], cmds[..n]).value, cur0, cmds[n]);
    }
  }

  /** One more line. */
  lemma Extend(fs: seq<Frame>, st: seq<bool>, cur: seq<Block>, c: Cmd) returns (fs': seq<Frame>, cur': seq<Block>)
    requires Fits(fs, st) && Proper(cur) && Move(st, c).Some?
    ensures Fits(fs', Move(st, c).value) && Proper(cur') && SpellOpen(fs', cur') == SpellOpen(fs, cur) + [c]
  {
    hide ProperArms, Proper, Spell, SpellArms, SpellFrames;
    if c == Plain {
      SpellMore(cur, Text);
      ProperJoin(cur, Text);
      fs', cur' := fs, cur + [Text];
    } else if c == If {
      FramesMore(fs, Frame(cur, [], If));
      NoArms();
      fs', cur' := fs + [Frame(cur, [], If)], [];
    } else if c == Endif {
      fs', cur' := ExtendEnd(fs, st, cur);
    } else {
      fs', cur' := ExtendArm(fs, st, cur, c);
    }
  }

  /** An #endif puts the innermost conditional where it belongs. */
  lemma ExtendEnd(fs: seq<Frame>, st: seq<bool>, cur: seq<Block>) returns (fs': seq<Frame>, cur': seq<Block>)
    requires Fits(fs, st) && Proper(cur) && Move(st, Endif).Some?
    ensures Fits(fs', Move(st, Endif).value) && Proper(cur') && SpellOpen(fs', cur') == SpellOpen(fs, cur) + [Endif]
  {
    hide ProperArms, Proper, Spell, SpellArms, SpellFrames;
    var k := |fs| - 1;
    var f := fs[k];
    assert ProperFrame(f);
    var a := Arm(f.cmd, cur);
    ArmsMore(f.arms, a);
    FramesMore(fs[..k], f);
    assert fs == fs[..k] + [f];
    ProperMore(f.arms, a, true);
    SpellMore(f.before, Cond(f.arms + [a]));
    ProperJoin(f.before, Cond(f.arms + [a]));
    fs', cur' := fs[..k], f.before + [Cond(f.arms + [a])];
  }

  /** An #elif or #else begins another arm of it. */
  lemma ExtendArm(fs: seq<Frame>, st: seq<bool>, cur: seq<Block>, c: Cmd) returns (fs': seq<Frame>, cur': seq<Block>)
    requires Fits(fs, st) && Proper(cur) && Move(st, c).Some? && (c == Elif || c == Else)
    ensures Fits(fs', Move(st, c).value) && Proper(cur') && SpellOpen(fs', cur') == SpellOpen(fs, cur) + [c]
  {
    hide ProperArms, Proper, Spell, SpellArms, SpellFrames;
    var k := |fs| - 1;
    var f := fs[k];
    assert ProperFrame(f);
    var a := Arm(f.cmd, cur);
    ArmsMore(f.arms, a);
    FramesMore(fs[..k], f);
    assert fs == fs[..k] + [f];
    ProperMore(f.arms, a, false);
    FramesMore(fs[..k], Frame(f.before, f.arms + [a], c));
    NoArms();
    fs', cur' := fs[..k] + [Frame(f.before, f.arms + [a], c)], [];
  }

  lemma NoArms()
    ensures ProperArms([], false) && Proper([]) && Spell([]) == [] && SpellArms([]) == []
  {
  }

  lemma FramesMore(fs: seq<Frame>, f: Frame)
    ensures SpellFrames(fs + [f]) == SpellFrames(fs) + Spell(f.before) + SpellArms(f.arms) + [f.cmd]
  {
    assert (fs + [f])[..|fs|] == fs;
  }

  lemma SpellMore(bs: seq<Block>, b: Block)
    ensures Spell(bs + [b]) == Spell(bs) + SpellOne(b)
  {
    assert (bs + [b])[..|bs|] == bs;
  }

  lemma ArmsMore(arms: seq<Arm>, a: Arm)
    ensures SpellArms(arms + [a]) == SpellArms(arms) + [a.cmd] + Spell(a.body)
  {
    assert (arms + [a])[..|arms|] == arms;
  }

  /** The stack is empty at the end if and only if the directives are well nested. */
  lemma NestedIffAccepted(cmds: seq<Cmd>)
    ensures WellNested(cmds) <==> Moves([], cmds) == Some([])
  {
    if WellNested(cmds) {
      var bs :| Proper(bs) && Spell(bs) == cmds;
      SpelledIsAccepted([], bs);
    }
    if Moves([], cmds) == Some([]) {
      var fs, cur := AcceptedIsSpelled(cmds);
      assert Spell(cur) == cmds;
    }
  }
}
