/** tor_queue.h: tail queues, whose back pointers address the previous link. */
module TailQueue {
  import opened Chains

  /**
   A queue head or an entry: both are a forward link followed by the address of a link, which is
   why the LAST and PREV macros may read an entry as a head. An address of a link is modelled as the
   cell that holds it, so `prev` stands for tqh_last in a head and for tqe_prev in an entry.
   */
  class Cell {
    var next: Cell?
    var prev: Cell?

    constructor ()
      ensures next == null && prev == null
    {
      next, prev := null, null;
    }
  }

  function At(all: seq<Cell>, i: nat): Cell? {
    if i < |all| then all[i] else null
  }

  /** The cell whose link the back pointer of cell `i` addresses; for the head, the last cell. */
  function Before(all: seq<Cell>, i: nat): Cell
    requires i < |all|
  {
    all[if i == 0 then |all| - 1 else i - 1]
  }

  /** The index of the cell that points back at cell `i - 1`: past the last entry that is the head. */
  function Wrap(i: nat, n: nat): nat {
    if i == n then 0 else i
  }

  /**
   `all` is the head followed by the entries: every link leads to the next cell, the last one is
   null, every back pointer addresses the link that leads to its entry, and the head's addresses
   the final null link.
   */
  ghost predicate Ring(all: seq<Cell>)
    reads all
  {
    && |all| > 0 && NoRepeats(all)
    && (forall i {:trigger all[i].next} | 0 <= i < |all| :: all[i].next == At(all, i + 1))
    && (forall i {:trigger all[i].prev} | 0 <= i < |all| :: all[i].prev == Before(all, i))
  }

  function Spliced<T>(s: seq<T>, i: nat, x: T): (r: seq<T>)
    requires i <= |s|
    ensures |r| == |s| + 1 && r[i] == x
    ensures forall j | 0 <= j < |r| && j != i :: r[j] == s[if j < i then j else j - 1]
  {
    s[..i] + [x] + s[i..]
  }

  lemma RingSpliced(all: seq<Cell>, i: nat, e: Cell)
    requires 1 <= i <= |all| && NoRepeats(all) && e !in all
    requires forall j {:trigger all[j].next} | 0 <= j < |all| && j != i - 1 :: all[j].next == At(all, j + 1)
    requires forall j {:trigger all[j].prev} | 0 <= j < |all| && j != Wrap(i, |all|) :: all[j].prev == Before(all, j)
    requires all[i - 1].next == e && e.next == At(all, i)
    requires e.prev == all[i - 1] && all[Wrap(i, |all|)].prev == e
    ensures Ring(Spliced(all, i, e))
  {
    hide Spliced, NoRepeats;
    SplicedNoRepeats(all, i, e);
    var r := Spliced(all, i, e);
    forall j | 0 <= j < |r| ensures r[j].next == At(r, j + 1) && r[j].prev == Before(r, j) {
      if j == 0 {} else if j < i {} else if j == i {} else if j == i + 1 {} else {}
    }
  }

  lemma SplicedNoRepeats<T>(s: seq<T>, i: nat, x: T)
    requires i <= |s| && NoRepeats(s) && x !in s
    ensures NoRepeats(Spliced(s, i, x))
  {
  }

  lemma RingCut(all: seq<Cell>, i: nat)
    requires 1 <= i < |all| && NoRepeats(all)
    requires forall j {:trigger all[j].next} | 0 <= j < |all| && j != i - 1 && j != i :: all[j].next == At(all, j + 1)
    requires forall j {:trigger all[j].prev} | 0 <= j < |all| && j != i && j != Wrap(i + 1, |all|) ::
             all[j].prev == Before(all, j)
    requires all[i - 1].next == At(all, i + 1) && all[Wrap(i + 1, |all|)].prev == all[i - 1]
    ensures Ring(Cut(all, i))
  {
    hide Cut, NoRepeats;
    CutNoRepeats(all, i);
    var r := Cut(all, i);
    forall j | 0 <= j < |r| ensures r[j].next == At(r, j + 1) && r[j].prev == Before(r, j) {
      if j == 0 {} else if j < i {} else if j == i {} else {}
    }
  }

  lemma CutNoRepeats<T>(s: seq<T>, i: nat)
    requires i < |s| && NoRepeats(s)
    ensures NoRepeats(Cut(s, i))
  {
  }

  lemma SplicedRest<T>(s: seq<T>, i: nat, x: T)
    requires 1 <= i <= |s|
    ensures Spliced(s, i, x)[1..] == Spliced(s[1..], i - 1, x) && Spliced(s, i, x)[0] == s[0]
  {
  }

  lemma CutRest<T>(s: seq<T>, i: nat)
    requires 1 <= i < |s|
    ensures Cut(s, i)[1..] == Cut(s[1..], i - 1) && Cut(s, i)[0] == s[0] && Elements(Cut(s, i)) <= Elements(s)
  {
  }

  lemma RingSwapped(all: seq<Cell>, i: nat, e: Cell)
    requires 1 <= i < |all| && NoRepeats(all) && e !in all
    requires forall j {:trigger all[j].next} | 0 <= j < |all| && j != i - 1 && j != i :: all[j].next == At(all, j + 1)
    requires forall j {:trigger all[j].prev} | 0 <= j < |all| && j != i && j != Wrap(i + 1, |all|) ::
             all[j].prev == Before(all, j)
    requires all[i - 1].next == e && e.next == At(all, i + 1)
    requires e.prev == all[i - 1] && all[Wrap(i + 1, |all|)].prev == e
    ensures Ring(all[i := e])
  {
    var r := all[i := e];
    forall j | 0 <= j < |r| ensures r[j].next == At(r, j + 1) && r[j].prev == Before(r, j) {
      assert r[j] == if j == i then e else all[j];
    }
  }

  class Queue {
    const head: Cell
    ghost var all: seq<Cell>   // the head, then the entries

    ghost predicate Valid()
      reads this, all
    {
      |all| > 0 && all[0] == head && Ring(all)
    }

    ghost function Elems(): seq<Cell>
      requires |all| > 0
      reads this
    {
      all[1..]
    }

    /** TAILQ_INIT */
    constructor ()
      ensures Valid() && Elems() == [] && fresh(all)
    {
      var h := new Cell();
      head, all := h, [h];
      new;
      head.prev := head;
    }

    method InsertHead(elm: Cell)
      requires Valid() && elm !in all
      modifies this, all, elm
      ensures Valid() && Elems() == [elm] + old(Elems())
    {
      elm.next := head.next;
      if elm.next != null {
        head.next.prev := elm;
      } else {
        head.prev := elm;
      }
      head.next := elm;
      elm.prev := head;
      RingSpliced(all, 1, elm);
      SplicedRest(all, 1, elm);
      all := Spliced(all, 1, elm);
    }

    method InsertTail(elm: Cell)
      requires Valid() && elm !in all
      modifies this, all, elm
      ensures Valid() && Elems() == old(Elems()) + [elm]
    {
      elm.next := null;
      elm.prev := head.prev;
      head.prev.next := elm;
      head.prev := elm;
      RingSpliced(all, |all|, elm);
      SplicedRest(all, |all|, elm);
      all := Spliced(all, |all|, elm);
    }

    method InsertAfter(listelm: Cell, elm: Cell, ghost k: nat)
      requires Valid() && elm !in all
      requires k < |Elems()| && Elems()[k] == listelm
      modifies this, all, elm
      ensures Valid() && Elems() == Spliced(old(Elems()), k + 1, elm)
    {
      hide Spliced;
      elm.next := listelm.next;
      if elm.next != null {
        elm.next.prev := elm;
      } else {
        head.prev := elm;
      }
      listelm.next := elm;
      elm.prev := listelm;
      RingSpliced(all, k + 2, elm);
      SplicedRest(all, k + 2, elm);
      all := Spliced(all, k + 2, elm);
    }

    method InsertBefore(listelm: Cell, elm: Cell, ghost k: nat)
      requires Valid() && elm !in all
      requires k < |Elems()| && Elems()[k] == listelm
      modifies this, all, elm
      ensures Valid() && Elems() == Spliced(old(Elems()), k, elm)
    {
      hide Spliced;
      elm.prev := listelm.prev;
      elm.next := listelm;
      listelm.prev.next := elm;
      listelm.prev := elm;
      RingSpliced(all, k + 1, elm);
      SplicedRest(all, k + 1, elm);
      all := Spliced(all, k + 1, elm);
    }

    method Remove(elm: Cell, ghost k: nat)
      requires Valid() && k < |Elems()| && Elems()[k] == elm
      modifies this, all
      ensures Valid() && Elems() == Cut(old(Elems()), k)
      ensures elm.next == old(elm.next) && elm.prev == old(elm.prev) && Elements(all) <= old(Elements(all))
    {
      hide Cut;
      if elm.next != null {
        elm.next.prev := elm.prev;
      } else {
        head.prev := elm.prev;
      }
      elm.prev.next := elm.next;
      RingCut(all, k + 1);
      CutRest(all, k + 1);
      all := Cut(all, k + 1);
    }

    method Replace(elm: Cell, elm2: Cell, ghost k: nat)
      requires Valid() && elm2 !in all && k < |Elems()| && Elems()[k] == elm
      modifies this, all, elm2
      ensures Valid() && Elems() == old(Elems())[k := elm2]
    {
      elm2.next := elm.next;
      if elm2.next != null {
        elm2.next.prev := elm2;
      } else {
        head.prev := elm2;
      }
      elm2.prev := elm.prev;
      elm2.prev.next := elm2;
      RingSwapped(all, k + 1, elm2);
      all := all[k + 1 := elm2];
    }

    method First() returns (r: Cell?)
      requires Valid()
      ensures r == At(Elems(), 0)
    {
      r := head.next;
    }

    method Next(elm: Cell, ghost k: nat) returns (r: Cell?)
      requires Valid() && k < |Elems()| && Elems()[k] == elm
      ensures r == At(Elems(), k + 1)
    {
      r := elm.next;
    }

    /**
     TAILQ_LAST: tqh_last addresses a link; the cell that holds it is read as a head, and its own tqh_last
     followed.
     */
    method Last() returns (r: Cell?)
      requires Valid()
      ensures r == if Elems() == [] then null else Elems()[|Elems()| - 1]
    {
      r := head.prev.prev.next;
    }

    /** TAILQ_PREV, by the same reading of an entry as a head. */
    method Prev(elm: Cell, ghost k: nat) returns (r: Cell?)
      requires Valid() && k < |Elems()| && Elems()[k] == elm
      ensures r == if k == 0 then null else Elems()[k - 1]
    {
      r := elm.prev.prev.next;
    }

    method Empty() returns (r: bool)
      requires Valid()
      ensures r <==> Elems() == []
    {
      r := head.next == null;
    }
  }

  // ---- traversals that may remove the current entry ----

  ghost function Filter<T>(s: seq<T>, keep: T -> bool): seq<T> {
    if s == [] then [] else (if keep(s[0]) then [s[0]] else []) + Filter(s[1..], keep)
  }

  ghost function Reverse<T>(s: seq<T>): seq<T> {
    if s == [] then [] else Reverse(s[1..]) + [s[0]]
  }

  /** Filtering keeps what `keep` says, reversing keeps everything. */
  lemma {:induction false} FilterKeeps<T>(s: seq<T>, keep: T -> bool, x: T)
    ensures x in Filter(s, keep) <==> x in s && keep(x)
  {
    if s != [] {
      FilterKeeps(s[1..], keep, x);
      assert s == [s[0]] + s[1..];
    }
  }

  lemma {:induction false} ReverseAt<T>(s: seq<T>, i: nat)
    requires i < |s|
    ensures |Reverse(s)| == |s| && Reverse(s)[i] == s[|s| - 1 - i]
  {
    if |s| > 1 {
      ReverseAt(s[1..], if i < |s| - 1 then i else 0);
    }
  }

  lemma {:induction false} FilterAppend<T>(s: seq<T>, x: T, keep: T -> bool)
    ensures Filter(s + [x], keep) == Filter(s, keep) + (if keep(x) then [x] else [])
  {
    if s == [] {
      assert s + [x] == [x] && [x][1..] == [];
    } else {
      assert (s + [x])[1..] == s[1..] + [x];
      FilterAppend(s[1..], x, keep);
    }
  }

  /** The queue holds what was kept of the entries seen so far next to those still to be seen. */
  ghost predicate Split(q: Queue, kept: seq<Cell>, left: seq<Cell>)
    reads q, q.all
  {
    q.Valid() && q.Elems() == kept + left
  }

  /** One turn of TAILQ_FOREACH_SAFE: the successor is read before the body may remove the entry. */
  method VisitForward(q: Queue, elm: Cell, remove: bool, ghost kept: seq<Cell>, ghost left: seq<Cell>)
    returns (next: Cell?)
    requires Split(q, kept, left) && left != [] && elm == left[0]
    modifies q, Elements(q.all)
    ensures Split(q, kept + (if remove then [] else [elm]), left[1..])
    ensures next == At(left[1..], 0) && Elements(q.all) <= old(Elements(q.all))
  {
    next := q.Next(elm, |kept|);
    if remove {
      q.Remove(elm, |kept|);
    }
  }

  /** TAILQ_FOREACH_SAFE over a body that removes the entries `keep` turns down: all are visited, in order. */
  method ForeachSafe(q: Queue, keep: Cell -> bool) returns (visited: seq<Cell>)
    requires q.Valid()
    modifies q, Elements(q.all)
    ensures q.Valid() && visited == old(q.Elems()) && q.Elems() == Filter(visited, keep)
    ensures forall e :: e in q.Elems() <==> e in visited && keep(e)
  {
    hide Ring, Filter;
    FilterNone(keep);
    visited := [];
    ghost var kept: seq<Cell>, left: seq<Cell> := [], q.Elems();
    var elm := q.First();
    while elm != null
      invariant Split(q, kept, left) && elm == At(left, 0)
      invariant visited + left == old(q.Elems()) && kept == Filter(visited, keep)
      invariant Elements(q.all) <= old(Elements(q.all))
      decreases |left|
    {
      var cur: Cell := elm;
      FilterAppend(visited, cur, keep);
      elm := VisitForward(q, cur, !keep(cur), kept, left);
      kept, left := kept + (if keep(cur) then [cur] else []), left[1..];
      visited := visited + [cur];
    }
    forall e ensures e in Filter(visited, keep) <==> e in visited && keep(e) {
      FilterKeeps(visited, keep, e);
    }
  }

  lemma FilterNone<T>(keep: T -> bool)
    ensures Filter([], keep) == []
  {
  }

  /** One turn of TAILQ_FOREACH_REVERSE_SAFE. */
  method VisitBackward(q: Queue, elm: Cell, remove: bool, ghost left: seq<Cell>, ghost kept: seq<Cell>)
    returns (prev: Cell?)
    requires Split(q, left, kept) && left != [] && elm == left[|left| - 1]
    modifies q, Elements(q.all)
    ensures Split(q, left[..|left| - 1], (if remove then [] else [elm]) + kept)
    ensures prev == (if |left| == 1 then null else left[|left| - 2]) && Elements(q.all) <= old(Elements(q.all))
  {
    prev := q.Prev(elm, |left| - 1);
    if remove {
      q.Remove(elm, |left| - 1);
    }
  }

  /** TAILQ_FOREACH_REVERSE_SAFE over such a body: all are visited, last to first, and the kept ones stay in order. */
  method ForeachReverseSafe(q: Queue, keep: Cell -> bool) returns (visited: seq<Cell>)
    requires q.Valid()
    modifies q, Elements(q.all)
    ensures q.Valid() && visited == Reverse(old(q.Elems())) && q.Elems() == Filter(old(q.Elems()), keep)
    ensures |visited| == |old(q.Elems())|
    ensures forall i | 0 <= i < |visited| :: visited[i] == old(q.Elems())[|visited| - 1 - i]
    ensures forall e :: e in q.Elems() <==> e in visited && keep(e)
  {
    hide Ring, Filter, Reverse;
    FilterNone(keep);
    visited := [];
    ghost var left: seq<Cell>, kept: seq<Cell>, seen: seq<Cell> := q.Elems(), [], [];
    var elm := q.Last();
    ReverseNone<Cell>();
    while elm != null
      invariant Split(q, left, kept) && elm == (if left == [] then null else left[|left| - 1])
      invariant left + seen == old(q.Elems()) && visited == Reverse(seen) && kept == Filter(seen, keep)
      invariant Elements(q.all) <= old(Elements(q.all))
      decreases |left|
    {
      var cur: Cell := elm;
      elm := VisitBackward(q, cur, !keep(cur), left, kept);
      FilterPrepend(cur, seen, keep);
      kept, left := (if keep(cur) then [cur] else []) + kept, left[..|left| - 1];
      visited, seen := visited + [cur], [cur] + seen;
    }
    assert left + seen == seen && left + kept == kept;
    Reversed(seen);
    forall e ensures e in q.Elems() <==> e in visited && keep(e) {
      FilterKeeps(seen, keep, e);
    }
  }

  lemma Reversed<T>(s: seq<T>)
    ensures |Reverse(s)| == |s| && forall i | 0 <= i < |s| :: Reverse(s)[i] == s[|s| - 1 - i]
    ensures forall x :: x in Reverse(s) <==> x in s
  {
    hide Reverse;
    if s == [] {
      ReverseNone<T>();
    } else {
      ReverseAt(s, 0);
    }
    forall i | 0 <= i < |s| ensures |Reverse(s)| == |s| && Reverse(s)[i] == s[|s| - 1 - i] {
      ReverseAt(s, i);
    }
    forall x | x in s ensures x in Reverse(s) {
      var i :| 0 <= i < |s| && s[i] == x;
      assert Reverse(s)[|s| - 1 - i] == x;
    }
    forall x | x in Reverse(s) ensures x in s {
      var i :| 0 <= i < |s| && Reverse(s)[i] == x;
    }
  }

  lemma ReverseNone<T>()
    ensures Reverse<T>([]) == []
  {
  }

  lemma FilterPrepend<T>(x: T, s: seq<T>, keep: T -> bool)
    ensures Filter([x] + s, keep) == (if keep(x) then [x] else []) + Filter(s, keep)
    ensures Reverse([x] + s) == Reverse(s) + [x]
  {
    assert ([x] + s)[1..] == s;
  }
}
