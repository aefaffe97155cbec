/** tor_queue.h: circular queues, whose entries and head point at each other rather than at links. */
module CircleQueue {
  import opened Chains
  import T = TailQueue

  /** A head or an entry: cqh_first or cqe_next, and cqh_last or cqe_prev. */
  class Cell {
    var next: Cell?
    var prev: Cell?

    constructor ()
      ensures next == null && prev == null
    {
      next, prev := null, null;
    }
  }

  function Following(all: seq<Cell>, i: nat): Cell
    requires i < |all|
  {
    all[if i + 1 == |all| then 0 else i + 1]
  }

  function Preceding(all: seq<Cell>, i: nat): Cell
    requires i < |all|
  {
    all[if i == 0 then |all| - 1 else i - 1]
  }

  /** `all` is the head followed by the entries, linked into a circle both ways. */
  ghost predicate Circle(all: seq<Cell>)
    reads all
  {
    && |all| > 0 && NoRepeats(all)
    && (forall i {:trigger all[i].next} | 0 <= i < |all| :: all[i].next == Following(all, i))
    && (forall i {:trigger all[i].prev} | 0 <= i < |all| :: all[i].prev == Preceding(all, i))
  }

  lemma CircleSpliced(all: seq<Cell>, i: nat, e: Cell)
    requires 1 <= i <= |all| && NoRepeats(all) && e !in all
    requires forall j {:trigger all[j].next} | 0 <= j < |all| && j != i - 1 :: all[j].next == Following(all, j)
    requires forall j {:trigger all[j].prev} | 0 <= j < |all| && j != T.Wrap(i, |all|) ::
             all[j].prev == Preceding(all, j)
    requires all[i - 1].next == e && e.next == Following(all, i - 1)
    requires e.prev == all[i - 1] && all[T.Wrap(i, |all|)].prev == e
    ensures Circle(T.Spliced(all, i, e))
  {
    hide T.Spliced, NoRepeats;
    T.SplicedNoRepeats(all, i, e);
    var r := T.Spliced(all, i, e);
    forall j | 0 <= j < |r| ensures r[j].next == Following(r, j) && r[j].prev == Preceding(r, j) {
      if j == 0 {} else if j < i {} else if j == i {} else if j == i + 1 {} else {}
    }
  }

  lemma CircleCut(all: seq<Cell>, i: nat)
    requires 1 <= i < |all| && NoRepeats(all)
    requires forall j {:trigger all[j].next} | 0 <= j < |all| && j != i - 1 && j != i ::
             all[j].next == Following(all, j)
    requires forall j {:trigger all[j].prev} | 0 <= j < |all| && j != i && j != T.Wrap(i + 1, |all|) ::
             all[j].prev == Preceding(all, j)
    requires all[i - 1].next == Following(all, i) && all[T.Wrap(i + 1, |all|)].prev == all[i - 1]
    ensures Circle(Cut(all, i))
  {
    hide Cut, NoRepeats;
    T.CutNoRepeats(all, i);
    var r := Cut(all, i);
    forall j | 0 <= j < |r| ensures r[j].next == Following(r, j) && r[j].prev == Preceding(r, j) {
      if j == 0 {} else if j < i {} else if j == i {} else {}
    }
  }

  class Queue {
    const head: Cell
    ghost var all: seq<Cell>   // the head, then the entries

    ghost predicate Valid()
      reads this, all
    {
      |all| > 0 && all[0] == head && Circle(all)
    }

    ghost function Elems(): seq<Cell>
      requires |all| > 0
      reads this
    {
      all[1..]
    }

    /** CIRCLEQ_INIT */
    constructor ()
      ensures Valid() && Elems() == [] && fresh(all)
    {
      var h := new Cell();
      head, all := h, [h];
      new;
      head.next, head.prev := head, head;
    }

    method InsertAfter(listelm: Cell, elm: Cell, ghost k: nat)
      requires Valid() && elm !in all
      requires k < |Elems()| && Elems()[k] == listelm
      modifies this, all, elm
      ensures Valid() && Elems() == T.Spliced(old(Elems()), k + 1, elm)
    {
      hide T.Spliced;
      ghost var after := Following(all, k + 1);
      assert all[k + 1].next == after && all[T.Wrap(k + 2, |all|)] == after;
      elm.next := listelm.next;
      elm.prev := listelm;
      if listelm.next == head {
        head.prev := elm;
      } else {
        listelm.next.prev := elm;
      }
      listelm.next := elm;
      CircleSpliced(all, k + 2, elm);
      T.SplicedRest(all, k + 2, elm);
      all := T.Spliced(all, k + 2, elm);
    }

    method InsertBefore(listelm: Cell, elm: Cell, ghost k: nat)
      requires Valid() && elm !in all
      requires k < |Elems()| && Elems()[k] == listelm
      modifies this, all, elm
      ensures Valid() && Elems() == T.Spliced(old(Elems()), k, elm)
    {
      hide T.Spliced;
      elm.next := listelm;
      elm.prev := listelm.prev;
      if listelm.prev == head {
        head.next := elm;
      } else {
        listelm.prev.next := elm;
      }
      listelm.prev := elm;
      CircleSpliced(all, k + 1, elm);
      T.SplicedRest(all, k + 1, elm);
      all := T.Spliced(all, k + 1, elm);
    }

    /** The test is on the last entry: when there is none, the new one is last as well as first. */
    method InsertHead(elm: Cell)
      requires Valid() && elm !in all
      modifies this, all, elm
      ensures Valid() && Elems() == [elm] + old(Elems())
    {
      elm.next := head.next;
      elm.prev := head;
      if head.prev == head {
        head.prev := elm;
      } else {
        head.next.prev := elm;
      }
      head.next := elm;
      CircleSpliced(all, 1, elm);
      T.SplicedRest(all, 1, elm);
      all := T.Spliced(all, 1, elm);
    }

    method InsertTail(elm: Cell)
      requires Valid() && elm !in all
      modifies this, all, elm
      ensures Valid() && Elems() == old(Elems()) + [elm]
    {
      hide T.Spliced;
      assert all[0].prev == all[|all| - 1];
      elm.next := head;
      elm.prev := head.prev;
      if head.next == head {
        head.next := elm;
      } else {
        head.prev.next := elm;
      }
      head.prev := elm;
      CircleSpliced(all, |all|, elm);
      SplicedLast(all, elm);
      all := T.Spliced(all, |all|, elm);
    }

    lemma SplicedLast(s: seq<Cell>, e: Cell)
      requires |s| > 0
      ensures T.Spliced(s, |s|, e) == s + [e] && (s + [e])[1..] == s[1..] + [e]
    {
    }

    method Remove(elm: Cell, ghost k: nat)
      requires Valid() && k < |Elems()| && Elems()[k] == elm
      modifies this, all
      ensures Valid() && Elems() == Cut(old(Elems()), k)
      ensures elm.next == old(elm.next) && elm.prev == old(elm.prev)
    {
      hide Cut;
      if elm.next == head {
        head.prev := elm.prev;
      } else {
        elm.next.prev := elm.prev;
      }
      if elm.prev == head {
        head.next := elm.next;
      } else {
        elm.prev.next := elm.next;
      }
      CircleCut(all, k + 1);
      T.CutRest(all, k + 1);
      all := Cut(all, k + 1);
    }

    /** Either end, or the head itself when there are no entries. */
    method Ends() returns (first: Cell?, last: Cell?)
      requires Valid()
      ensures if Elems() == [] then first == last == head
              else first == Elems()[0] && last == Elems()[|Elems()| - 1]
    {
      first, last := head.next, head.prev;
    }
  }
}
