module Rehash {
  import opened Chains
  import opened Links

  /** `trace` lists the nodes of `s`, each once. */
  ghost predicate Lists<N>(trace: seq<N>, s: set<N>) {
    NoRepeats(trace) && Elements(trace) == s
  }

  lemma ListsMore<N>(trace: seq<N>, s: set<N>, n: N)
    requires Lists(trace, s) && n !in s
    ensures Lists(trace + [n], s + {n})
  {
    assert n !in Elements(trace);
  }

  /** The nodes a growth relinks: in a fresh table all of them, in place those whose bucket changes. */
  ghost function Relinks<K>(where: map<Node<K>, nat>, newLen: nat, inPlace: bool): set<Node<K>>
    reads where.Keys`hash
  {
    set n | n in where && (inPlace ==> where[n] != BucketNum(n.hash, newLen))
  }

  // ---- rehashing into a fresh table ----

  /** `rest` is what remains of the old bucket `c` when the nodes of `placed` have found their place. */
  ghost predicate Pending<N>(rest: seq<N>, placed: set<N>, nodes: set<N>, c: seq<N>) {
    && NoRepeats(rest) && Elements(rest) !! placed && Elements(rest) <= Elements(c)
    && placed + Elements(rest) == nodes + Elements(c)
  }

  lemma PendingNext<N>(rest: seq<N>, placed: set<N>, nodes: set<N>, c: seq<N>)
    requires rest != [] && Pending(rest, placed, nodes, c)
    ensures rest[0] in Elements(c) && rest[0] !in placed
    ensures Pending(rest[1..], placed + {rest[0]}, nodes, c)
  {
    RestSets(rest);
  }

  /** Moves the first node of an old bucket to the front of its new bucket. */
  method MoveFirst<K>(elm: Node<K>, t: array<Node?<K>>,
                      ghost c: seq<Node<K>>, ghost chains: seq<seq<Node<K>>>, ghost nodes: set<Node<K>>)
    returns (next: Node?<K>, ghost chains': seq<seq<Node<K>>>)
    requires t.Length > 0 && Linked(t, chains, ByHash(nodes, t.Length))
    requires Chain(elm, c) && NoRepeats(c) && elm !in nodes
    modifies t, elm`next
    ensures Chain(next, c[1..])
    ensures Linked(t, chains', ByHash(nodes + {elm}, t.Length))
  {
    ChainRest(elm, c);
    RestSets(c);
    next := elm.next;
    chains' := PushHashed(t, elm, chains, nodes);
  }

  /** Pushes the nodes of one old bucket onto their new buckets. */
  method MoveChain<K>(head: Node?<K>, t: array<Node?<K>>, ghost c: seq<Node<K>>,
                      ghost chains: seq<seq<Node<K>>>, ghost nodes: set<Node<K>>, ghost trace: seq<Node<K>>)
    returns (ghost chains': seq<seq<Node<K>>>, ghost trace': seq<Node<K>>)
    requires t.Length > 0 && Linked(t, chains, ByHash(nodes, t.Length))
    requires Chain(head, c) && NoRepeats(c) && Elements(c) !! nodes && Lists(trace, nodes)
    modifies t, Elements(c)`next
    ensures Linked(t, chains', ByHash(nodes + Elements(c), t.Length))
    ensures Lists(trace', nodes + Elements(c))
  {
    hide Lists, Linked, BucketNum, ByHash;
    var elm := head;
    ghost var rest: seq<Node<K>>, placed: set<Node<K>> := c, nodes;
    chains', trace' := chains, trace;
    while elm != null
      invariant Chain(elm, rest) && Pending(rest, placed, nodes, c)
      invariant Linked(t, chains', ByHash(placed, t.Length)) && Lists(trace', placed)
      decreases |rest|
    {
      ChainRest(elm, rest);
      PendingNext(rest, placed, nodes, c);
      ListsMore(trace', placed, rest[0]);
      trace' := trace' + [rest[0]];
      var next;
      next, chains' := MoveFirst(elm, t, rest, chains', placed);
      elm, rest, placed := next, rest[1..], placed + {rest[0]};
    }
    assert placed == nodes + Elements(c);
  }

  /** Buckets before `b` have moved into `t`; the others are still linked as they were. */
  ghost predicate Moving<K>(from: array<Node?<K>>, chains: seq<seq<Node<K>>>, where: map<Node<K>, nat>, b: nat,
                            t: array<Node?<K>>, chains': seq<seq<Node<K>>>)
    requires Placed(chains, where) && from.Length == |chains| && t.Length > 0
    reads from, t, where.Keys
  {
    && Linked(t, chains', ByHash(Below(where, b), t.Length))
    && forall d | b <= d < |chains| :: Chain(from[d], chains[d])
  }

  method MoveBucket<K>(from: array<Node?<K>>, b: nat, t: array<Node?<K>>,
                       ghost chains: seq<seq<Node<K>>>, ghost where: map<Node<K>, nat>,
                       ghost chains0: seq<seq<Node<K>>>, ghost trace: seq<Node<K>>)
    returns (ghost chains': seq<seq<Node<K>>>, ghost trace': seq<Node<K>>)
    requires Placed(chains, where) && from.Length == |chains| && t.Length > 0 && t != from
    requires b < from.Length && Moving(from, chains, where, b, t, chains0) && Lists(trace, Below(where, b))
    modifies t, where.Keys`next
    ensures Moving(from, chains, where, b + 1, t, chains') && Lists(trace', Below(where, b + 1))
  {
    hide Lists;
    BelowNext(chains, where, b);
    chains', trace' := MoveChain(from[b], t, chains[b], chains0, Below(where, b), trace);
  }

  /** The branch of HT_GROW that got a fresh table: every node moves to its bucket there, once. */
  method RehashFresh<K>(from: array<Node?<K>>, newLen: nat,
                        ghost chains: seq<seq<Node<K>>>, ghost where: map<Node<K>, nat>)
    returns (t: array<Node?<K>>, ghost chains': seq<seq<Node<K>>>, ghost trace: seq<Node<K>>)
    requires Linked(from, chains, where) && newLen > 0
    modifies where.Keys`next
    ensures fresh(t) && t.Length == newLen
    ensures Linked(t, chains', ByHash(where.Keys, newLen)) && Hashed(chains', where.Keys, newLen)
    ensures Lists(trace, where.Keys)
  {
    t := new Node?<K>[newLen](_ => null);
    chains', trace := seq(newLen, _ => []), [];
    for b := 0 to from.Length
      invariant Moving(from, chains, where, b, t, chains') && Lists(trace, Below(where, b))
    {
      chains', trace := MoveBucket(from, b, t, chains, where, chains', trace);
    }
    assert Below(where, from.Length) == where.Keys;
    LinkedHashed(t, chains', where.Keys);
  }

  // ---- rehashing in place ----

  /**
   A sweep over the old buckets that has kept the first `k` nodes of bucket `b`. A node moved so
   far is in its final bucket, whether or not that bucket is still to be swept; `trace` lists the
   moved nodes.
   */
  ghost predicate Sweep<K>(len: nat, chains: seq<seq<Node<K>>>, where: map<Node<K>, nat>,
                           where0: map<Node<K>, nat>, oldLen: nat, b: nat, k: nat, trace: seq<Node<K>>)
    reads where.Keys`hash
  {
    && where.Keys == where0.Keys && oldLen <= len == |chains|
    && (b < oldLen ==> k <= |chains[b]|)
    && (forall n | n in where && (where[n] < b || oldLen <= where[n]) :: where[n] == BucketNum(n.hash, len))
    && (b < oldLen ==> forall i | 0 <= i < k :: chains[b][i] in where && BucketNum(chains[b][i].hash, len) == b)
    && NoRepeats(trace)
    && (forall n | n in trace :: n in where && where[n] == BucketNum(n.hash, len))
    && (forall n | n in where :: n in trace <==> where[n] != where0[n])
  }

  /** Unlinks element `k` of bucket `b` and pushes it onto bucket `b2`. */
  method Move<K>(t: array<Node?<K>>, p: SlotPtr<K>, e: Node<K>, b2: nat, ghost b: nat, ghost k: nat,
                 ghost chains: seq<seq<Node<K>>>, ghost where: map<Node<K>, nat>)
    returns (ghost chains': seq<seq<Node<K>>>)
    requires Linked(t, chains, where) && b2 < t.Length
    requires b < |chains| && k < |chains[b]| && e == chains[b][k] && p == SlotAt(chains, b, k) && b2 != b
    modifies t, where.Keys`next
    ensures chains' == PushFront(RemoveAt(chains, b, k), b2, e)
    ensures Linked(t, chains', where[e := b2]) && p == SlotAt(chains', b, k)
  {
    Unlink(t, p, e.next, chains, where, b, k);
    Push(t, b2, e, RemoveAt(chains, b, k), where - {e});
    chains' := PushFront(RemoveAt(chains, b, k), b2, e);
    assert (where - {e})[e := b2] == where[e := b2];
  }

  lemma SweepMove<K>(len: nat, chains: seq<seq<Node<K>>>, where: map<Node<K>, nat>,
                     where0: map<Node<K>, nat>, oldLen: nat, b: nat, k: nat, trace: seq<Node<K>>, e: Node<K>)
    requires len > 0 && Placed(chains, where) && Sweep(len, chains, where, where0, oldLen, b, k, trace)
    requires b < oldLen && k < |chains[b]| && e == chains[b][k] && BucketNum(e.hash, len) != b
    ensures Sweep(len, PushFront(RemoveAt(chains, b, k), BucketNum(e.hash, len), e), where[e := BucketNum(e.hash, len)],
                  where0, oldLen, b, k, trace + [e])
  {
    assert e !in trace;
  }

  lemma SweepKeep<K>(len: nat, chains: seq<seq<Node<K>>>, where: map<Node<K>, nat>,
                     where0: map<Node<K>, nat>, oldLen: nat, b: nat, k: nat, trace: seq<Node<K>>)
    requires len > 0 && Placed(chains, where) && Sweep(len, chains, where, where0, oldLen, b, k, trace)
    requires b < oldLen && k < |chains[b]| && BucketNum(chains[b][k].hash, len) == b
    ensures Sweep(len, chains, where, where0, oldLen, b, k + 1, trace)
  {
  }

  /** The step that relinks a node. */
  method SweepAway<K>(t: array<Node?<K>>, p: SlotPtr<K>, e: Node<K>, b2: nat, ghost b: nat, ghost k: nat,
                      ghost oldLen: nat, ghost chains: seq<seq<Node<K>>>, ghost where: map<Node<K>, nat>,
                      ghost where0: map<Node<K>, nat>, ghost trace: seq<Node<K>>)
    returns (ghost chains': seq<seq<Node<K>>>)
    requires t.Length > 0 && Linked(t, chains, where) && Sweep(t.Length, chains, where, where0, oldLen, b, k, trace)
    requires b < oldLen && k < |chains[b]| && e == chains[b][k] && p == SlotAt(chains, b, k)
    requires b2 == BucketNum(e.hash, t.Length) && b2 != b
    modifies t, where.Keys`next
    ensures Linked(t, chains', where[e := b2])
    ensures Sweep(t.Length, chains', where[e := b2], where0, oldLen, b, k, trace + [e])
    ensures |chains'| == |chains| && |chains'[b]| == |chains[b]| - 1 && p == SlotAt(chains', b, k)
  {
    SweepMove(t.Length, chains, where, where0, oldLen, b, k, trace, e);
    chains' := Move(t, p, e, b2, b, k, chains, where);
  }

  /** One step of the inner loop: the node is kept, or goes to the front of its own bucket. */
  method SweepNode<K>(t: array<Node?<K>>, p: SlotPtr<K>, e: Node<K>, b: nat, ghost k: nat, ghost oldLen: nat,
                      ghost chains: seq<seq<Node<K>>>, ghost where: map<Node<K>, nat>,
                      ghost where0: map<Node<K>, nat>, ghost trace: seq<Node<K>>)
    returns (p': SlotPtr<K>, ghost k': nat, ghost chains': seq<seq<Node<K>>>, ghost where': map<Node<K>, nat>,
             ghost trace': seq<Node<K>>)
    requires t.Length > 0 && Linked(t, chains, where) && Sweep(t.Length, chains, where, where0, oldLen, b, k, trace)
    requires b < oldLen && k < |chains[b]| && e == chains[b][k] && p == SlotAt(chains, b, k)
    modifies t, where.Keys`next
    ensures Linked(t, chains', where') && Sweep(t.Length, chains', where', where0, oldLen, b, k', trace')
    ensures where'.Keys == where.Keys && |chains'| == |chains|
    ensures k' <= |chains'[b]| && p' == SlotAt(chains', b, k') && |chains'[b]| - k' == |chains[b]| - k - 1
  {
    var b2 := BucketNum(e.hash, t.Length);
    if b2 == b {
      SweepKeep(t.Length, chains, where, where0, oldLen, b, k, trace);
      p', k', chains', where', trace' := After(e), k + 1, chains, where, trace;
    } else {
      chains' := SweepAway(t, p, e, b2, b, k, oldLen, chains, where, where0, trace);
      p', k', where', trace' := p, k, where[e := b2], trace + [e];
    }
  }

  lemma SweepBounds<K>(len: nat, chains: seq<seq<Node<K>>>, where: map<Node<K>, nat>,
                       where0: map<Node<K>, nat>, oldLen: nat, b: nat, k: nat, trace: seq<Node<K>>)
    requires len > 0 && Sweep(len, chains, where, where0, oldLen, b, k, trace)
    ensures oldLen <= |chains| && where.Keys == where0.Keys
  {
  }

  lemma SweptBucket<K>(len: nat, chains: seq<seq<Node<K>>>, where: map<Node<K>, nat>,
                       where0: map<Node<K>, nat>, oldLen: nat, b: nat, trace: seq<Node<K>>)
    requires len > 0 && Placed(chains, where) && b < oldLen <= |chains|
    requires Sweep(len, chains, where, where0, oldLen, b, |chains[b]|, trace)
    ensures Sweep(len, chains, where, where0, oldLen, b + 1, 0, trace)
  {
  }

  lemma SweepDone<K>(len: nat, chains: seq<seq<Node<K>>>, where: map<Node<K>, nat>,
                     where0: map<Node<K>, nat>, oldLen: nat, trace: seq<Node<K>>)
    requires len > 0 && Placed(chains, where) && Sweep(len, chains, where, where0, oldLen, oldLen, 0, trace)
    ensures where == ByHash(where0.Keys, len)
    ensures Lists(trace, Relinks(where0, len, true))
  {
  }

  /** The inner loop, over one old bucket. */
  method SweepBucket<K>(t: array<Node?<K>>, b: nat, ghost oldLen: nat,
                        ghost chains: seq<seq<Node<K>>>, ghost where: map<Node<K>, nat>,
                        ghost where0: map<Node<K>, nat>, ghost trace: seq<Node<K>>)
    returns (ghost chains': seq<seq<Node<K>>>, ghost where': map<Node<K>, nat>, ghost trace': seq<Node<K>>)
    requires t.Length > 0 && Linked(t, chains, where) && Sweep(t.Length, chains, where, where0, oldLen, b, 0, trace)
    requires b < oldLen
    modifies t, where.Keys`next
    ensures Linked(t, chains', where') && Sweep(t.Length, chains', where', where0, oldLen, b + 1, 0, trace')
  {
    hide Linked, Sweep, BucketNum;
    SweepBounds(t.Length, chains, where, where0, oldLen, b, 0, trace);
    ghost var k: nat := 0;
    var p := Head(b);
    var e := Fetch(t, p, chains, where, b, k);
    chains', where', trace' := chains, where, trace;
    while e != null
      invariant Linked(t, chains', where') && Sweep(t.Length, chains', where', where0, oldLen, b, k, trace')
      invariant b < |chains'| && k <= |chains'[b]| && p == SlotAt(chains', b, k) && e == At(chains'[b], k)
      invariant where'.Keys == where.Keys && oldLen <= |chains'|
      decreases |chains'[b]| - k
    {
      p, k, chains', where', trace' := SweepNode(t, p, e, b, k, oldLen, chains', where', where0, trace');
      e := Fetch(t, p, chains', where', b, k);
    }
    LinkedPlaced(t, chains', where');
    assert k == |chains'[b]|;
    SweptBucket(t.Length, chains', where', where0, oldLen, b, trace');
  }

  /** `realloc` to a longer table, with the new buckets cleared. */
  method Enlarge<K>(from: array<Node?<K>>, newLen: nat,
                    ghost chains: seq<seq<Node<K>>>, ghost where: map<Node<K>, nat>)
    returns (t: array<Node?<K>>, ghost chains': seq<seq<Node<K>>>)
    requires Linked(from, chains, where) && from.Length <= newLen
    ensures fresh(t) && t.Length == newLen && Linked(t, chains', where)
  {
    t := new Node?<K>[newLen](_ => null);
    forall i | 0 <= i < from.Length { t[i] := from[i]; }
    chains' := chains + seq(newLen - from.Length, _ => []);
    forall d | 0 <= d < newLen ensures Chain(t[d], chains'[d]) {
      assert d < from.Length ==> Chain(from[d], chains[d]);
    }
  }

  /**
   The branch of HT_GROW that only got its table enlarged: the old buckets are swept in order and
   a node that belongs elsewhere goes to the front of that bucket, even of one still to be swept.
   `trace` lists the relinked nodes: each once, and exactly those whose bucket changes.
   */
  method RehashInPlace<K>(from: array<Node?<K>>, newLen: nat,
                          ghost chains: seq<seq<Node<K>>>, ghost where: map<Node<K>, nat>)
    returns (t: array<Node?<K>>, ghost chains': seq<seq<Node<K>>>, ghost trace: seq<Node<K>>)
    requires Linked(from, chains, where) && from.Length <= newLen && newLen > 0
    modifies where.Keys`next
    ensures fresh(t) && t.Length == newLen
    ensures Linked(t, chains', ByHash(where.Keys, newLen)) && Hashed(chains', where.Keys, newLen)
    ensures Lists(trace, Relinks(where, newLen, true))
    ensures forall n :: n in trace <==> n in where && where[n] != n.hash % newLen
  {
    hide Hashed;
    t, chains' := Enlarge(from, newLen, chains, where);
    trace := [];
    ghost var where' := where;
    for b := 0 to from.Length
      invariant Linked(t, chains', where') && Sweep(newLen, chains', where', where, from.Length, b, 0, trace)
    {
      chains', where', trace := SweepBucket(t, b, from.Length, chains', where', where, trace);
    }
    SweepDone(newLen, chains', where', where, from.Length, trace);
    LinkedHashed(t, chains', where.Keys);
    forall n ensures n in trace <==> n in where && where[n] != n.hash % newLen {
      assert n in trace <==> n in Elements(trace);
    }
  }

  /**
   Either branch: the same nodes, each in the bucket of its hash. `count` is how many were relinked
   on the way.
   */
  method Rehash<K>(from: array<Node?<K>>, newLen: nat, inPlace: bool,
                   ghost chains: seq<seq<Node<K>>>, ghost where: map<Node<K>, nat>)
    returns (t: array<Node?<K>>, ghost chains': seq<seq<Node<K>>>, ghost count: nat)
    requires Linked(from, chains, where) && from.Length <= newLen && newLen > 0
    modifies where.Keys`next
    ensures fresh(t) && t.Length == newLen
    ensures Linked(t, chains', ByHash(where.Keys, newLen)) && Hashed(chains', where.Keys, newLen)
    ensures count == |Relinks(where, newLen, inPlace)| <= |where.Keys|
  {
    hide Linked, BucketNum, Hashed;
    ghost var trace;
    if inPlace {
      t, chains', trace := RehashInPlace(from, newLen, chains, where);
    } else {
      t, chains', trace := RehashFresh(from, newLen, chains, where);
      assert Relinks(where, newLen, inPlace) == where.Keys;
    }
    count := |trace|;
    CountElements(trace);
    CountSome(Relinks(where, newLen, inPlace), where.Keys);
  }

  lemma CountSome<N>(some: set<N>, all: set<N>)
    requires some <= all
    ensures |some| <= |all|
  {
    assert all == some + (all - some);
  }

  /** Where the nodes go does not depend on the branch taken: bucket by bucket the node sets agree. */
  lemma SameBuckets<N>(chains1: seq<seq<N>>, chains2: seq<seq<N>>, where: map<N, nat>, b: nat)
    requires Placed(chains1, where) && Placed(chains2, where)
    requires b < |chains1| && b < |chains2|
    ensures Elements(chains1[b]) == Elements(chains2[b])
  {
    forall n ensures n in Elements(chains1[b]) <==> n in Elements(chains2[b]) {
      assert n in chains1[b] <==> n in where && where[n] == b;
      assert n in chains2[b] <==> n in where && where[n] == b;
    }
  }
}
