/** Rows of distinct elements: what the buckets of a hash table hold, as values. */
module Rows {

  /** No element occurs twice, in one row or in two. */
  ghost predicate Distinct<T>(rows: seq<seq<T>>) {
    forall r, q, i, j |
      0 <= r < |rows| && 0 <= q < |rows| && 0 <= i < |rows[r]| && 0 <= j < |rows[q]| && rows[r][i] == rows[q][j] ::
      r == q && i == j
  }

  ghost predicate In<T>(rows: seq<seq<T>>, x: T) {
    exists r :: 0 <= r < |rows| && x in rows[r]
  }

  /** How many elements there are. */
  ghost function Total<T>(rows: seq<seq<T>>): nat {
    if rows == [] then 0 else Total(rows[..|rows| - 1]) + |rows[|rows| - 1]|
  }

  ghost function Pop<T>(rows: seq<seq<T>>, r: nat, i: nat): seq<seq<T>>
    requires r < |rows| && i < |rows[r]|
  {
    rows[r := rows[r][..i] + rows[r][i + 1..]]
  }

  ghost function Insert<T>(rows: seq<seq<T>>, q: nat, i: nat, x: T): seq<seq<T>>
    requires q < |rows| && i <= |rows[q]|
  {
    rows[q := rows[q][..i] + [x] + rows[q][i..]]
  }

  ghost predicate NoRepeat<T>(c: seq<T>) { forall i, j :: 0 <= i < j < |c| ==> c[i] != c[j] }

  lemma RowNoRepeat<T>(rows: seq<seq<T>>, b: nat)
    requires Distinct(rows) && b < |rows|
    ensures NoRepeat(rows[b])
  {
  }

  lemma {:induction false} TotalUpdate<T>(rows: seq<seq<T>>, r: nat, row: seq<T>)
    requires r < |rows|
    ensures Total(rows[r := row]) + |rows[r]| == Total(rows) + |row|
  {
    var n := |rows| - 1;
    var rows' := rows[r := row];
    if r == n {
      assert rows'[..n] == rows[..n];
    } else {
      assert rows'[..n] == rows[..n][r := row];
      TotalUpdate(rows[..n], r, row);
    }
  }

  lemma PopKeeps<T>(rows: seq<seq<T>>, r: nat, i: nat)
    requires Distinct(rows) && r < |rows| && i < |rows[r]|
    ensures Distinct(Pop(rows, r, i)) && Total(Pop(rows, r, i)) + 1 == Total(rows)
    ensures forall x :: In(Pop(rows, r, i), x) <==> In(rows, x) && x != rows[r][i]
  {
    var rows' := Pop(rows, r, i);
    TotalUpdate(rows, r, rows'[r]);
    PopDistinct(rows, r, i);
    forall x ensures In(rows', x) <==> In(rows, x) && x != rows[r][i] {
      PopIn(rows, r, i, x);
    }
  }

  lemma PopDistinct<T>(rows: seq<seq<T>>, r: nat, i: nat)
    requires Distinct(rows) && r < |rows| && i < |rows[r]|
    ensures Distinct(Pop(rows, r, i))
  {
    var rows' := Pop(rows, r, i);
    forall p, q, a, b | 0 <= p < |rows'| && 0 <= q < |rows'| && 0 <= a < |rows'[p]| && 0 <= b < |rows'[q]|
      && rows'[p][a] == rows'[q][b]
      ensures p == q && a == b
    {
      assert rows'[p][a] == rows[p][if p == r && a >= i then a + 1 else a];
      assert rows'[q][b] == rows[q][if q == r && b >= i then b + 1 else b];
    }
  }

  lemma PopIn<T>(rows: seq<seq<T>>, r: nat, i: nat, x: T)
    requires Distinct(rows) && r < |rows| && i < |rows[r]|
    ensures In(Pop(rows, r, i), x) <==> In(rows, x) && x != rows[r][i]
  {
    var rows' := Pop(rows, r, i);
    if In(rows, x) && x != rows[r][i] {
      assert rows[r] == rows[r][..i] + [rows[r][i]] + rows[r][i + 1..];
      var p :| 0 <= p < |rows| && x in rows[p];
      assert x in rows'[p];
    }
    if In(rows', x) {
      PopFrom(rows, r, i, x);
    }
  }

  lemma PopFrom<T>(rows: seq<seq<T>>, r: nat, i: nat, x: T)
    requires Distinct(rows) && r < |rows| && i < |rows[r]| && In(Pop(rows, r, i), x)
    ensures In(rows, x) && x != rows[r][i]
  {
    var rows' := Pop(rows, r, i);
    var p :| 0 <= p < |rows'| && x in rows'[p];
    var a :| 0 <= a < |rows'[p]| && rows'[p][a] == x;
    var a' := if p == r && a >= i then a + 1 else a;
    assert rows'[p][a] == rows[p][a'];
    assert x in rows[p] && rows[p][a'] != rows[r][i];
  }

  lemma InsertKeeps<T>(rows: seq<seq<T>>, q: nat, i: nat, x: T)
    requires Distinct(rows) && q < |rows| && i <= |rows[q]| && !In(rows, x)
    ensures Distinct(Insert(rows, q, i, x)) && Total(Insert(rows, q, i, x)) == Total(rows) + 1
    ensures forall y :: In(Insert(rows, q, i, x), y) <==> In(rows, y) || y == x
  {
    var rows' := Insert(rows, q, i, x);
    TotalUpdate(rows, q, rows'[q]);
    InsertDistinct(rows, q, i, x);
    forall y ensures In(rows', y) <==> In(rows, y) || y == x {
      InsertIn(rows, q, i, x, y);
    }
  }

  lemma InsertDistinct<T>(rows: seq<seq<T>>, q: nat, i: nat, x: T)
    requires Distinct(rows) && q < |rows| && i <= |rows[q]| && !In(rows, x)
    ensures Distinct(Insert(rows, q, i, x))
  {
    var rows' := Insert(rows, q, i, x);
    forall p, s, a, b | 0 <= p < |rows'| && 0 <= s < |rows'| && 0 <= a < |rows'[p]| && 0 <= b < |rows'[s]|
      && rows'[p][a] == rows'[s][b]
      ensures p == s && a == b
    {
      var a', b' := if p == q && a > i then a - 1 else a, if s == q && b > i then b - 1 else b;
      assert (p == q && a == i) || (rows'[p][a] == rows[p][a'] && rows[p][a'] in rows[p]);
      assert (s == q && b == i) || (rows'[s][b] == rows[s][b'] && rows[s][b'] in rows[s]);
    }
  }

  lemma InsertIn<T>(rows: seq<seq<T>>, q: nat, i: nat, x: T, y: T)
    requires q < |rows| && i <= |rows[q]|
    ensures In(Insert(rows, q, i, x), y) <==> In(rows, y) || y == x
  {
    var rows' := Insert(rows, q, i, x);
    assert rows[q] == rows[q][..i] + rows[q][i..];
    if In(rows, y) {
      var p :| 0 <= p < |rows| && y in rows[p];
      assert y in rows'[p];
    }
    if y == x { assert y in rows'[q]; }
    if In(rows', y) {
      var p :| 0 <= p < |rows'| && y in rows'[p];
      assert y in rows[p] || y == x;
    }
  }
}
