/** The order in which a walk over the buckets meets the elements. */
module Orders {
  import opened Rows

  /** The rows one behind another. */
  ghost function Flat<T>(rows: seq<seq<T>>): seq<T> {
    if rows == [] then [] else Flat(rows[..|rows| - 1]) + rows[|rows| - 1]
  }

  /** Where element i of row b is in that order. */
  ghost function Pos<T>(rows: seq<seq<T>>, b: nat, i: nat): nat
    requires b <= |rows|
  {
    |Flat(rows[..b])| + i
  }

  lemma {:induction false} FlatSplit<T>(rows: seq<seq<T>>, b: nat)
    requires b < |rows|
    ensures Flat(rows[..b + 1]) == Flat(rows[..b]) + rows[b]
  {
    assert rows[..b + 1][..b] == rows[..b];
  }

  lemma {:induction false} FlatPrefix<T>(rows: seq<seq<T>>, b: nat)
    requires b <= |rows|
    ensures Flat(rows[..b]) <= Flat(rows)
    decreases |rows| - b
  {
    if b < |rows| {
      FlatSplit(rows, b);
      FlatPrefix(rows, b + 1);
    } else {
      assert rows[..b] == rows;
    }
  }

  lemma {:induction false} FlatTotal<T>(rows: seq<seq<T>>)
    ensures |Flat(rows)| == Total(rows)
  {
    if rows != [] { FlatTotal(rows[..|rows| - 1]); }
  }

  lemma FlatAt<T>(rows: seq<seq<T>>, b: nat, i: nat)
    requires b < |rows| && i < |rows[b]|
    ensures Pos(rows, b, i) < |Flat(rows)| && Flat(rows)[Pos(rows, b, i)] == rows[b][i]
  {
    FlatSplit(rows, b);
    FlatPrefix(rows, b + 1);
    assert Flat(rows[..b + 1])[Pos(rows, b, i)] == rows[b][i];
  }

  lemma FlatTake<T>(rows: seq<seq<T>>, b: nat, i: nat)
    requires b < |rows| && i < |rows[b]|
    ensures Pos(rows, b, i) < |Flat(rows)|
    ensures Flat(rows)[..Pos(rows, b, i)] + [rows[b][i]] == Flat(rows)[..Pos(rows, b, i) + 1]
    ensures Pos(rows, b, i) + 1 == |Flat(rows)| ==> Flat(rows)[..Pos(rows, b, i) + 1] == Flat(rows)
  {
    FlatAt(rows, b, i);
  }

  lemma {:induction false} FlatSkip<T>(rows: seq<seq<T>>, b: nat, c: nat)
    requires b <= c <= |rows| && forall r :: b <= r < c ==> rows[r] == []
    ensures Flat(rows[..c]) == Flat(rows[..b])
    decreases c - b
  {
    if b < c {
      FlatSplit(rows, b);
      FlatSkip(rows, b + 1, c);
    }
  }

  lemma {:induction false} FlatIn<T>(rows: seq<seq<T>>, x: T)
    ensures x in Flat(rows) <==> In(rows, x)
  {
    if rows != [] {
      var n := |rows| - 1;
      FlatIn(rows[..n], x);
      if x in rows[n] { assert In(rows, x); }
      if In(rows[..n], x) {
        var b :| 0 <= b < n && x in rows[..n][b];
        assert x in rows[b];
      }
      if In(rows, x) {
        var b :| 0 <= b < |rows| && x in rows[b];
        assert b < n ==> x in rows[..n][b];
      }
    }
  }

  /** The walk meets no element twice. */
  lemma {:induction false} FlatOnce<T>(rows: seq<seq<T>>)
    requires Distinct(rows)
    ensures NoRepeat(Flat(rows))
  {
    if rows != [] {
      var n := |rows| - 1;
      assert Distinct(rows[..n]);
      FlatOnce(rows[..n]);
      RowNoRepeat(rows, n);
      forall x | x in rows[n] ensures x !in Flat(rows[..n]) {
        FlatIn(rows[..n], x);
        NotBefore(rows, n, x);
      }
      JoinNoRepeat(Flat(rows[..n]), rows[n]);
    }
  }

  lemma JoinNoRepeat<T>(c: seq<T>, d: seq<T>)
    requires NoRepeat(c) && NoRepeat(d) && forall x :: x in d ==> x !in c
    ensures NoRepeat(c + d)
  {
    forall i, j | 0 <= i < j < |c + d| ensures (c + d)[i] != (c + d)[j] {
      assert i < |c| || (c + d)[i] == d[i - |c|];
      assert j < |c| || d[j - |c|] in d;
      assert j < |c| || (c + d)[j] == d[j - |c|];
    }
  }

  lemma NotBefore<T>(rows: seq<seq<T>>, n: nat, x: T)
    requires Distinct(rows) && n < |rows| && x in rows[n]
    ensures !In(rows[..n], x)
  {
    forall b | 0 <= b < n ensures x !in rows[..n][b] {
    }
  }

  /** Taking out an element leaves the order of the others. */
  lemma {:induction false} FlatPop<T>(rows: seq<seq<T>>, b: nat, i: nat)
    requires b < |rows| && i < |rows[b]|
    ensures Pos(rows, b, i) < |Flat(rows)|
    ensures Flat(Pop(rows, b, i)) == Flat(rows)[..Pos(rows, b, i)] + Flat(rows)[Pos(rows, b, i) + 1..]
  {
    FlatAt(rows, b, i);
    var n := |rows| - 1;
    var rows' := Pop(rows, b, i);
    if b == n {
      assert rows'[..n] == rows[..n];
    } else {
      assert rows'[..n] == Pop(rows[..n], b, i) && rows[..n][..b] == rows[..b];
      FlatPop(rows[..n], b, i);
    }
  }

  /** The elements of a row that are not dropped. */
  ghost function Kept<T>(row: seq<T>, drop: T -> bool): seq<T> {
    if row == [] then [] else Kept(row[..|row| - 1], drop) + if drop(row[|row| - 1]) then [] else [row[|row| - 1]]
  }

  ghost function KeptRows<T>(rows: seq<seq<T>>, drop: T -> bool): seq<seq<T>> {
    seq(|rows|, b requires 0 <= b < |rows| => Kept(rows[b], drop))
  }

  lemma {:induction false} KeptIn<T>(row: seq<T>, drop: T -> bool, x: T)
    ensures x in Kept(row, drop) <==> x in row && !drop(x)
  {
    if row != [] { KeptIn(row[..|row| - 1], drop, x); }
  }

  lemma {:induction false} KeptJoin<T>(a: seq<T>, b: seq<T>, drop: T -> bool)
    ensures Kept(a + b, drop) == Kept(a, drop) + Kept(b, drop)
  {
    if b == [] {
      assert a + b == a;
    } else {
      assert (a + b)[..|a + b| - 1] == a + b[..|b| - 1];
      KeptJoin(a, b[..|b| - 1], drop);
    }
  }

  lemma KeptMore<T>(row: seq<T>, drop: T -> bool, k: nat)
    requires k < |row|
    ensures Kept(row[..k + 1], drop) == Kept(row[..k], drop) + if drop(row[k]) then [] else [row[k]]
    ensures row[..k + 1] == row[..k] + [row[k]]
  {
    assert row[..k + 1][..k] == row[..k];
  }

  /** Of all elements, the first k have been gone through. */
  ghost predicate HalfSwept<T>(all: seq<T>, now: seq<T>, drop: T -> bool, k: nat) {
    k <= |all| && now == Kept(all[..k], drop) + all[k..]
  }

  lemma SweepStart<T>(all: seq<T>, drop: T -> bool)
    ensures HalfSwept(all, all, drop, 0) && Kept(all[..0], drop) == []
  {
  }

  lemma SweepStep<T>(all: seq<T>, now: seq<T>, drop: T -> bool, k: nat, at: nat)
    requires HalfSwept(all, now, drop, k) && at == |Kept(all[..k], drop)| && k < |all|
    ensures at < |now| && now[at] == all[k] && |now| - at == |all| - k && all[..k + 1] == all[..k] + [all[k]]
    ensures if drop(all[k])
      then HalfSwept(all, now[..at] + now[at + 1..], drop, k + 1) && at == |Kept(all[..k + 1], drop)|
      else HalfSwept(all, now, drop, k + 1) && at + 1 == |Kept(all[..k + 1], drop)|
  {
    KeptMore(all, drop, k);
  }

  lemma SweepEnd<T>(all: seq<T>, now: seq<T>, drop: T -> bool)
    requires HalfSwept(all, now, drop, |all|)
    ensures now == Kept(all, drop) && all[..|all|] == all
  {
    assert all[..|all|] == all;
  }

  lemma {:induction false} FlatKept<T>(rows: seq<seq<T>>, drop: T -> bool)
    ensures Flat(KeptRows(rows, drop)) == Kept(Flat(rows), drop)
  {
    if rows != [] {
      var n := |rows| - 1;
      assert KeptRows(rows, drop)[..n] == KeptRows(rows[..n], drop);
      FlatKept(rows[..n], drop);
      KeptJoin(Flat(rows[..n]), rows[n], drop);
    }
  }

  /** The rows below b, and the first k elements of row b, have been gone through. */
  ghost predicate HalfKept<T>(was: seq<seq<T>>, rows: seq<seq<T>>, drop: T -> bool, b: nat, k: nat) {
    && |rows| == |was| && (forall c :: 0 <= c < b && c < |rows| ==> rows[c] == Kept(was[c], drop))
    && (forall c :: b < c < |rows| ==> rows[c] == was[c])
    && (b < |rows| ==> k <= |was[b]| && rows[b] == Kept(was[b][..k], drop) + was[b][k..])
  }

  lemma HalfStart<T>(rows: seq<seq<T>>, drop: T -> bool)
    ensures HalfKept(rows, rows, drop, 0, 0)
  {
  }

  lemma HalfStep<T>(was: seq<seq<T>>, rows: seq<seq<T>>, drop: T -> bool, b: nat, i: nat, k: nat)
    requires HalfKept(was, rows, drop, b, k) && b < |rows| && i < |rows[b]| && i == |Kept(was[b][..k], drop)|
    ensures k < |was[b]| && rows[b][i] == was[b][k] && was[b][..k + 1] == was[b][..k] + [rows[b][i]]
    ensures if drop(rows[b][i])
      then HalfKept(was, Pop(rows, b, i), drop, b, k + 1) && i == |Kept(was[b][..k + 1], drop)|
      else HalfKept(was, rows, drop, b, k + 1) && i + 1 == |Kept(was[b][..k + 1], drop)|
  {
    assert was[b][..k + 1][..k] == was[b][..k];
  }

  lemma HalfNext<T>(was: seq<seq<T>>, rows: seq<seq<T>>, drop: T -> bool, b: nat, k: nat)
    requires HalfKept(was, rows, drop, b, k) && b < |rows| && |rows[b]| == |Kept(was[b][..k], drop)|
    ensures was[b][..k] == was[b] && HalfKept(was, rows, drop, b + 1, 0)
  {
    assert was[b][..k] == was[b];
  }
}
