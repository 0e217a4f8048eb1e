/** The tail queues of tor_queue.h. The head and the link of an element have the same layout, two words: a pointer
    to an element, and a pointer to the first word of a head or a link. TAILQ_LAST and TAILQ_PREV read one as the
    other. */
module TailQueues {
  import opened Rows
  import opened Orders

  /** The address of an element; 0 is NULL. */
  type Ptr = nat

  /** The address of two such words: those of the head, or those of an element's link. */
  datatype Node = Head | Link(e: Ptr)

  /** tqh_first and tqh_last, or tqe_next and tqe_prev. */
  datatype Words = Words(first: Ptr, back: Node)

  type Memory = map<Node, Words>

  /** The element in place i, NULL behind the end. */
  function Nth(q: seq<Ptr>, i: nat): Ptr { if i < |q| then q[i] else 0 }

  /** The words in front of place i. */
  function Before(q: seq<Ptr>, i: nat): Node
    requires i <= |q|
  {
    if i == 0 then Head else Link(q[i - 1])
  }

  /** The words that hold the pointer back to those. */
  function Behind(q: seq<Ptr>, i: nat): Node { if i < |q| then Link(q[i]) else Head }

  /** Place i: the words in front of it point to its element, and the words that point back do so to those. */
  predicate Place(mem: Memory, q: seq<Ptr>, i: nat)
    requires i <= |q|
  {
    && Before(q, i) in mem && mem[Before(q, i)].first == Nth(q, i)
    && Behind(q, i) in mem && mem[Behind(q, i)].back == Before(q, i)
  }

  /** The memory holds the queue q. */
  ghost predicate Holds(mem: Memory, q: seq<Ptr>) {
    NoRepeat(q) && 0 !in q && forall i :: 0 <= i <= |q| ==> Place(mem, q, i)
  }

  /** The links of all elements outside of both queues, but for e, are as they were. */
  ghost predicate Aside(was: Memory, now: Memory, q: seq<Ptr>, e: Ptr) {
    forall x :: Link(x) in was && x !in q && x != e ==> Link(x) in now && now[Link(x)] == was[Link(x)]
  }

  function WithFirst(mem: Memory, n: Node, v: Ptr): Memory
    requires n in mem
  {
    mem[n := mem[n].(first := v)]
  }

  function WithBack(mem: Memory, n: Node, v: Node): Memory
    requires n in mem
  {
    mem[n := mem[n].(back := v)]
  }

  lemma PlaceAt(mem: Memory, q: seq<Ptr>, i: nat)
    requires Holds(mem, q) && i <= |q|
    ensures Place(mem, q, i)
  {
  }

  /** e between its neighbours in place i. */
  function Inserted(mem: Memory, q: seq<Ptr>, i: nat, e: Ptr): Memory
    requires i <= |q| && Place(mem, q, i)
  {
    WithBack(WithFirst(mem[Link(e) := Words(Nth(q, i), Before(q, i))], Before(q, i), e), Behind(q, i), Link(e))
  }

  lemma InsertOk(mem: Memory, q: seq<Ptr>, i: nat, e: Ptr)
    requires Holds(mem, q) && i <= |q| && e != 0 && e !in q
    ensures var q' := q[..i] + [e] + q[i..]; Holds(Inserted(mem, q, i, e), q') && Aside(mem, Inserted(mem, q, i, e), q, e)
  {
    var q' := q[..i] + [e] + q[i..];
    var mem' := Inserted(mem, q, i, e);
    forall k | 0 <= k < |q'| ensures q'[k] == if k < i then q[k] else if k == i then e else q[k - 1] {}
    forall k | 0 <= k <= |q'| ensures Place(mem', q', k) {
      PlaceAt(mem, q, i);
      PlaceAt(mem, q, if k <= i then k else k - 1);
    }
  }

  /** The neighbours of place i joined. */
  function Removed(mem: Memory, q: seq<Ptr>, i: nat): Memory
    requires i < |q| && Place(mem, q, i) && Place(mem, q, i + 1)
  {
    WithFirst(WithBack(mem, Behind(q, i + 1), Before(q, i)), Before(q, i), Nth(q, i + 1))
  }

  lemma RemoveOk(mem: Memory, q: seq<Ptr>, i: nat)
    requires Holds(mem, q) && i < |q|
    ensures Place(mem, q, i) && Place(mem, q, i + 1)
    ensures var q' := q[..i] + q[i + 1..]; Holds(Removed(mem, q, i), q') && Aside(mem, Removed(mem, q, i), q, 0)
  {
    var q' := q[..i] + q[i + 1..];
    PlaceAt(mem, q, i);
    PlaceAt(mem, q, i + 1);
    var mem' := Removed(mem, q, i);
    forall k | 0 <= k < |q'| ensures q'[k] == q[if k < i then k else k + 1] {}
    forall k | 0 <= k <= |q'| ensures Place(mem', q', k) {
      PlaceAt(mem, q, if k < i then k else k + 1);
    }
  }

  /** e in the place i of another element. */
  function Replaced(mem: Memory, q: seq<Ptr>, i: nat, e: Ptr): Memory
    requires i < |q| && Place(mem, q, i) && Place(mem, q, i + 1)
  {
    WithFirst(WithBack(mem[Link(e) := Words(Nth(q, i + 1), Before(q, i))], Behind(q, i + 1), Link(e)), Before(q, i), e)
  }

  lemma ReplaceOk(mem: Memory, q: seq<Ptr>, i: nat, e: Ptr)
    requires Holds(mem, q) && i < |q| && e != 0 && e !in q
    ensures Place(mem, q, i) && Place(mem, q, i + 1)
    ensures Holds(Replaced(mem, q, i, e), q[i := e]) && Aside(mem, Replaced(mem, q, i, e), q, e)
  {
    PlaceAt(mem, q, i);
    PlaceAt(mem, q, i + 1);
    var mem', q' := Replaced(mem, q, i, e), q[i := e];
    forall k | 0 <= k <= |q'| ensures Place(mem', q', k) {
      PlaceAt(mem, q, k);
    }
  }

  class Queue {
    var mem: Memory
    ghost var items: seq<Ptr>

    ghost predicate Valid()
      reads this
    {
      Holds(mem, items)
    }

    /** TAILQ_INIT; the elements' links may hold anything. */
    constructor (links: Memory)
      ensures Valid() && items == [] && forall x :: Link(x) in links ==> Link(x) in mem && mem[Link(x)] == links[Link(x)]
    {
      mem := links[Head := Words(0, Head)];
      items := [];
    }

    method SetFirst(n: Node, v: Ptr)
      requires n in mem
      modifies this`mem
      ensures mem == WithFirst(old(mem), n, v)
    {
      mem := mem[n := mem[n].(first := v)];
    }

    method SetBack(n: Node, v: Node)
      requires n in mem
      modifies this`mem
      ensures mem == WithBack(old(mem), n, v)
    {
      mem := mem[n := mem[n].(back := v)];
    }

    /** TAILQ_INSERT_HEAD */
    method InsertHead(elm: Ptr)
      requires Valid() && elm != 0 && elm !in items && Link(elm) in mem
      modifies this
      ensures Valid() && items == [elm] + old(items) && Aside(old(mem), mem, old(items), elm)
    {
      PlaceAt(mem, items, 0);
      InsertOk(mem, items, 0, elm);
      SetFirst(Link(elm), mem[Head].first);
      if mem[Link(elm)].first != 0 {
        SetBack(Link(mem[Head].first), Link(elm));
      } else {
        SetBack(Head, Link(elm));
      }
      SetFirst(Head, elm);
      SetBack(Link(elm), Head);
      assert mem == Inserted(old(mem), items, 0, elm);
      assert [elm] + items == items[..0] + [elm] + items[0..];
      items := [elm] + items;
    }

    /** TAILQ_INSERT_TAIL */
    method InsertTail(elm: Ptr)
      requires Valid() && elm != 0 && elm !in items && Link(elm) in mem
      modifies this
      ensures Valid() && items == old(items) + [elm] && Aside(old(mem), mem, old(items), elm)
    {
      PlaceAt(mem, items, |items|);
      InsertOk(mem, items, |items|, elm);
      SetFirst(Link(elm), 0);
      SetBack(Link(elm), mem[Head].back);
      SetFirst(mem[Head].back, elm);
      SetBack(Head, Link(elm));
      assert mem == Inserted(old(mem), items, |items|, elm);
      assert items + [elm] == items[..|items|] + [elm] + items[|items|..];
      items := items + [elm];
    }

    /** TAILQ_INSERT_AFTER */
    method InsertAfter(listelm: Ptr, elm: Ptr, ghost i: nat)
      requires Valid() && i < |items| && items[i] == listelm && elm != 0 && elm !in items && Link(elm) in mem
      modifies this
      ensures Valid() && items == old(items[..i + 1]) + [elm] + old(items[i + 1..])
      ensures Aside(old(mem), mem, old(items), elm)
    {
      PlaceAt(mem, items, i + 1);
      InsertOk(mem, items, i + 1, elm);
      SetFirst(Link(elm), mem[Link(listelm)].first);
      if mem[Link(elm)].first != 0 {
        SetBack(Link(mem[Link(elm)].first), Link(elm));
      } else {
        SetBack(Head, Link(elm));
      }
      SetFirst(Link(listelm), elm);
      SetBack(Link(elm), Link(listelm));
      assert mem == Inserted(old(mem), items, i + 1, elm);
      items := items[..i + 1] + [elm] + items[i + 1..];
    }

    /** TAILQ_INSERT_BEFORE */
    method InsertBefore(listelm: Ptr, elm: Ptr, ghost i: nat)
      requires Valid() && i < |items| && items[i] == listelm && elm != 0 && elm !in items && Link(elm) in mem
      modifies this
      ensures Valid() && items == old(items[..i]) + [elm] + old(items[i..]) && Aside(old(mem), mem, old(items), elm)
    {
      PlaceAt(mem, items, i);
      InsertOk(mem, items, i, elm);
      SetBack(Link(elm), mem[Link(listelm)].back);
      SetFirst(Link(elm), listelm);
      SetFirst(mem[Link(listelm)].back, elm);
      SetBack(Link(listelm), Link(elm));
      assert mem == Inserted(old(mem), items, i, elm);
      items := items[..i] + [elm] + items[i..];
    }

    /** TAILQ_REMOVE */
    method Remove(elm: Ptr, ghost i: nat)
      requires Valid() && i < |items| && items[i] == elm
      modifies this
      ensures Valid() && items == old(items[..i]) + old(items[i + 1..]) && Aside(old(mem), mem, old(items), 0)
    {
      RemoveOk(mem, items, i);
      if mem[Link(elm)].first != 0 {
        SetBack(Link(mem[Link(elm)].first), mem[Link(elm)].back);
      } else {
        SetBack(Head, mem[Link(elm)].back);
      }
      SetFirst(mem[Link(elm)].back, mem[Link(elm)].first);
      assert mem == Removed(old(mem), items, i);
      items := items[..i] + items[i + 1..];
    }

    /** TAILQ_REPLACE */
    method Replace(elm: Ptr, elm2: Ptr, ghost i: nat)
      requires Valid() && i < |items| && items[i] == elm && elm2 != 0 && elm2 !in items && Link(elm2) in mem
      modifies this
      ensures Valid() && items == old(items)[i := elm2] && Aside(old(mem), mem, old(items), elm2)
    {
      ReplaceOk(mem, items, i, elm2);
      SetFirst(Link(elm2), mem[Link(elm)].first);
      if mem[Link(elm2)].first != 0 {
        SetBack(Link(mem[Link(elm2)].first), Link(elm2));
      } else {
        SetBack(Head, Link(elm2));
      }
      SetBack(Link(elm2), mem[Link(elm)].back);
      SetFirst(mem[Link(elm2)].back, elm2);
      assert mem == Replaced(old(mem), items, i, elm2);
      items := items[i := elm2];
    }

    /** TAILQ_LAST: the words that tqh_last points to are read as those of a head. */
    method Last() returns (r: Ptr)
      requires Valid()
      ensures r == if items == [] then 0 else items[|items| - 1]
    {
      PlaceAt(mem, items, |items|);
      if items != [] { PlaceAt(mem, items, |items| - 1); }
      r := mem[mem[mem[Head].back].back].first;
    }

    /** TAILQ_PREV: the words that tqe_prev points to are read as those of a head. */
    method Prev(elm: Ptr, ghost i: nat) returns (r: Ptr)
      requires Valid() && i < |items| && items[i] == elm
      ensures r == if i == 0 then 0 else items[i - 1]
    {
      PlaceAt(mem, items, i);
      PlaceAt(mem, items, |items|);
      if i > 0 { PlaceAt(mem, items, i - 1); }
      r := mem[mem[mem[Link(elm)].back].back].first;
    }

    /** TAILQ_FOREACH_REVERSE */
    method Backwards() returns (seen: seq<Ptr>)
      requires Valid()
      ensures |seen| == |items| && forall k :: 0 <= k < |seen| ==> seen[k] == items[|items| - 1 - k]
    {
      seen := [];
      var x := Last();
      ghost var i: nat := |items|;
      while x != 0
        invariant i <= |items| && (x == if i == 0 then 0 else items[i - 1]) && |seen| == |items| - i
        invariant forall k :: 0 <= k < |seen| ==> seen[k] == items[|items| - 1 - k]
        decreases i
      {
        seen := seen + [x];
        i := i - 1;
        x := Prev(x, i);
      }
    }

    /** TAILQ_FOREACH_SAFE, whose body removes some of the elements. */
    method Sweep(drop: Ptr -> bool) returns (seen: seq<Ptr>)
      requires Valid()
      modifies this
      ensures Valid() && seen == old(items) && items == Kept(old(items), drop)
    {
      ghost var all, k := items, 0;
      seen := [];
      PlaceAt(mem, items, 0);
      SweepStart(all, drop);
      var x := mem[Head].first;
      while x != 0
        invariant Valid() && k <= |all| && seen == all[..k] && HalfSwept(all, items, drop, k)
        invariant x == Nth(all, k) && 0 !in all
        decreases |all| - k
      {
        ghost var at := |Kept(all[..k], drop)|;
        SweepStep(all, items, drop, k, at);
        PlaceAt(mem, items, at + 1);
        var t := mem[Link(x)].first;
        seen := seen + [x];
        if drop(x) {
          Remove(x, at);
        }
        k := k + 1;
        x := t;
      }
      SweepEnd(all, items, drop);
    }
  }
}
