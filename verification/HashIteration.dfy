/** ht.h: iteration with HT_START, HT_NEXT and HT_NEXT_RMV, and HT_FOREACH_FN. */
module HashIteration {
  import opened Chains
  import opened Links
  import opened Growth
  import opened HashTable

  /** Where an iteration stands: at element `k` of bucket `b`, or past the last element. */
  datatype Place = End | Place(b: nat, k: nat)

  ghost predicate InChains<N>(chains: seq<seq<N>>, at: Place) {
    at.Place? ==> at.b < |chains| && at.k < |chains[at.b]|
  }

  /** The elements still to be visited, the current one first. */
  ghost function Ahead<N>(chains: seq<seq<N>>, at: Place): seq<N>
    requires InChains(chains, at)
  {
    if at.End? then [] else chains[at.b][at.k..] + Rest(chains, at.b + 1)
  }

  ghost function SlotOf<K>(chains: seq<seq<Node<K>>>, at: Place): SlotPtr<K>
    requires InChains(chains, at)
  {
    if at.End? then Null else SlotAt(chains, at.b, at.k)
  }

  /** The first non-empty bucket from `b0` on. */
  method Scan<K(!new)>(ht: Table<K>, b0: nat) returns (p: SlotPtr<K>, ghost at: Place)
    requires ht.Shape()
    ensures InChains(ht.chains, at) && p == SlotOf(ht.chains, at)
    ensures Ahead(ht.chains, at) == Rest(ht.chains, b0)
  {
    var b := b0;
    LinkedLength(ht.table, ht.chains, ByHash(ht.nodes, ht.tableLength));
    while b < ht.tableLength
      invariant Rest(ht.chains, b) == Rest(ht.chains, b0)
    {
      if ht.table[b] != null {
        assert Chain(ht.table[b], ht.chains[b]);
        return Head(b), Place(b, 0);
      }
      assert Chain(ht.table[b], ht.chains[b]);
      b := b + 1;
    }
    return Null, End;
  }

  method Start<K(!new)>(ht: Table<K>) returns (p: SlotPtr<K>, ghost at: Place)
    requires ht.Shape()
    ensures InChains(ht.chains, at) && p == SlotOf(ht.chains, at)
    ensures Ahead(ht.chains, at) == Rest(ht.chains, 0) && (p == Null <==> Rest(ht.chains, 0) == [])
  {
    p, at := Scan(ht, 0);
  }

  method Peek<K(!new)>(ht: Table<K>, p: SlotPtr<K>, ghost b: nat, ghost k: nat) returns (n: Node?<K>)
    requires ht.Shape() && b < |ht.chains| && k <= |ht.chains[b]| && p == SlotAt(ht.chains, b, k)
    ensures n == At(ht.chains[b], k)
  {
    hide Linked, BucketNum;
    n := Fetch(ht.table, p, ht.chains, ByHash(ht.nodes, ht.tableLength), b, k);
  }

  /** `*p` */
  method Current<K(!new)>(ht: Table<K>, p: SlotPtr<K>, ghost at: Place) returns (n: Node<K>)
    requires ht.Shape() && InChains(ht.chains, at) && at.Place? && p == SlotOf(ht.chains, at)
    ensures n == ht.chains[at.b][at.k] && n in ht.nodes && BucketNum(n.hash, ht.tableLength) == at.b
    ensures n.next == At(ht.chains[at.b], at.k + 1)
  {
    hide Linked, BucketNum;
    ghost var where := ByHash(ht.nodes, ht.tableLength);
    n := Fetch(ht.table, p, ht.chains, where, at.b, at.k);
    LinkedNext(ht.table, ht.chains, where, at.b, at.k);
  }

  method Next<K(!new)>(ht: Table<K>, p: SlotPtr<K>, ghost at: Place) returns (p': SlotPtr<K>, ghost at': Place)
    requires ht.Shape() && InChains(ht.chains, at) && at.Place? && p == SlotOf(ht.chains, at)
    ensures InChains(ht.chains, at') && p' == SlotOf(ht.chains, at')
    ensures Ahead(ht.chains, at) == [ht.chains[at.b][at.k]] + Ahead(ht.chains, at')
  {
    hide Linked, BucketNum, ByHash;
    var n := Current(ht, p, at);
    if n.next != null {
      p', at' := After(n), Place(at.b, at.k + 1);
    } else {
      p', at' := Scan(ht, BucketNum(n.hash, ht.tableLength) + 1);
    }
  }

  /** Without its current element, what is ahead is the rest of the bucket and the buckets after it. */
  lemma AheadAfterRemove<N>(chains: seq<seq<N>>, b: nat, k: nat)
    requires b < |chains| && k < |chains[b]|
    ensures var chains' := RemoveAt(chains, b, k);
            |chains'| == |chains| && |chains'[b]| == |chains[b]| - 1 &&
            Ahead(chains, Place(b, k)) == [chains[b][k]] + (chains'[b][k..] + Rest(chains', b + 1))
  {
    hide Rest, Cut, RemoveAt;
    RestAfterRemove(chains, b, k, b + 1);
    CutTail(chains, b, k);
    var n, u, v := chains[b][k], RemoveAt(chains, b, k)[b][k..], Rest(chains, b + 1);
    assert [n] + u + v == [n] + (u + v);
  }

  lemma CutTail<N>(chains: seq<seq<N>>, b: nat, k: nat)
    requires b < |chains| && k < |chains[b]|
    ensures var chains' := RemoveAt(chains, b, k);
            |chains'| == |chains| && |chains'[b]| == |chains[b]| - 1 &&
            chains[b][k..] == [chains[b][k]] + chains'[b][k..]
  {
  }

  /** HT_NEXT_RMV: the current element leaves the table. */
  method NextRmv<K(!new)>(ht: Table<K>, p: SlotPtr<K>, ghost at: Place) returns (p': SlotPtr<K>, ghost at': Place)
    requires ht.Shape() && InChains(ht.chains, at) && at.Place? && p == SlotOf(ht.chains, at)
    modifies ht.table, ht.nodes`next, ht`nEntries, ht`chains, ht`nodes
    ensures ht.Shape() && old(ht.chains[at.b][at.k]) in old(ht.nodes)
    ensures ht.nodes == old(ht.nodes) - {old(ht.chains[at.b][at.k])}
    ensures InChains(ht.chains, at') && p' == SlotOf(ht.chains, at')
    ensures old(Ahead(ht.chains, at)) == [old(ht.chains[at.b][at.k])] + Ahead(ht.chains, at')
  {
    hide Linked, BucketNum, ByHash, ht.Shape, RemoveAt, Cut, Rest, SlotAt;
    var n := Current(ht, p, at);
    var h := n.hash;
    AheadAfterRemove(ht.chains, at.b, at.k);
    ht.LinkOut(p, n, at.b, at.k);
    p', at' := Resume(ht, p, h, at.b, at.k);
  }

  /** From a link that may have become the last of its bucket: that link, or the first of a later bucket. */
  method Resume<K(!new)>(ht: Table<K>, p: SlotPtr<K>, h: unsigned, ghost b: nat, ghost k: nat)
    returns (p': SlotPtr<K>, ghost at': Place)
    requires ht.Shape() && b < |ht.chains| && k <= |ht.chains[b]| && p == SlotAt(ht.chains, b, k)
    requires BucketNum(h, ht.tableLength) == b
    ensures InChains(ht.chains, at') && p' == SlotOf(ht.chains, at')
    ensures Ahead(ht.chains, at') == ht.chains[b][k..] + Rest(ht.chains, b + 1)
  {
    hide Linked, BucketNum, ByHash, ht.Shape, Rest;
    var more := Peek(ht, p, b, k);
    if more != null {
      p', at' := p, Place(b, k);
    } else {
      p', at' := Scan(ht, BucketNum(h, ht.tableLength) + 1);
      assert ht.chains[b][k..] + Rest(ht.chains, b + 1) == Rest(ht.chains, b + 1);
    }
  }

  /** The elements of `c` that `keep` turns down. */
  ghost function Dropped<N>(c: seq<N>, keep: N -> bool): set<N> {
    set n | n in c && !keep(n)
  }

  lemma DroppedAdd<N>(all: set<N>, c: seq<N>, n: N, keep: N -> bool)
    ensures all - Dropped(c + [n], keep) == (all - Dropped(c, keep)) - (if keep(n) then {} else {n})
  {
  }

  lemma Shift<N>(visited: seq<N>, n: N, ahead: seq<N>)
    ensures visited + [n] + ahead == visited + ([n] + ahead)
  {
  }

  /** One turn of such a loop: HT_NEXT or HT_NEXT_RMV, as `keep` says. */
  method Visit<K(!new)>(ht: Table<K>, keep: Node<K> -> bool, p: SlotPtr<K>, ghost at: Place)
    returns (n: Node<K>, p': SlotPtr<K>, ghost at': Place)
    requires ht.Shape() && InChains(ht.chains, at) && at.Place? && p == SlotOf(ht.chains, at)
    modifies ht.table, ht.nodes`next, ht`nEntries, ht`chains, ht`nodes
    ensures ht.Shape() && InChains(ht.chains, at') && p' == SlotOf(ht.chains, at')
    ensures n in old(ht.nodes) && ht.nodes == old(ht.nodes) - (if keep(n) then {} else {n})
    ensures old(Ahead(ht.chains, at)) == [n] + Ahead(ht.chains, at')
  {
    hide Linked, BucketNum, ByHash, ht.Shape, Ahead;
    n := Current(ht, p, at);
    if keep(n) {
      p', at' := Next(ht, p, at);
    } else {
      p', at' := NextRmv(ht, p, at);
    }
  }

  method VisitLoop<K(!new)>(ht: Table<K>, keep: Node<K> -> bool) returns (visited: seq<Node<K>>)
    requires ht.Shape()
    modifies ht.table, ht.nodes`next, ht`nEntries, ht`chains, ht`nodes
    ensures ht.Shape() && ht.nodes == old(ht.nodes) - Dropped(visited, keep) && ht.nodes <= old(ht.nodes)
    ensures visited == Rest(old(ht.chains), 0)
  {
    hide Linked, BucketNum, ByHash, ht.Shape, Dropped, Ahead, Rest;
    ghost var all, order := ht.nodes, Rest(ht.chains, 0);
    visited := [];
    DroppedNone(all, keep);
    var p;
    ghost var at;
    p, at := Start(ht);
    while p != Null
      invariant ht.Shape() && InChains(ht.chains, at) && p == SlotOf(ht.chains, at)
      invariant visited + Ahead(ht.chains, at) == order
      invariant ht.nodes == all - Dropped(visited, keep) && ht.nodes <= all
      decreases |Ahead(ht.chains, at)|
    {
      var n;
      n, p, at := Visit(ht, keep, p, at);
      DroppedAdd(all, visited, n, keep);
      Shift(visited, n, Ahead(ht.chains, at));
      visited := visited + [n];
    }
    AheadEnd(ht.chains, at);
  }

  /**
   A loop over the whole table that, at each element, goes on with HT_NEXT or with HT_NEXT_RMV as
   `keep` says: it meets every element once, in bucket order, and exactly the kept ones stay.
   */
  method VisitAll<K(!new)>(ht: Table<K>, keep: Node<K> -> bool) returns (visited: seq<Node<K>>)
    requires ht.Sound()
    modifies ht.table, ht.nodes`next, ht`nEntries, ht`chains, ht`nodes
    ensures ht.Sound() && ht.nodes == old(ht.nodes) - Dropped(visited, keep)
    ensures visited == Rest(old(ht.chains), 0) && NoRepeats(visited) && Elements(visited) == old(ht.nodes)
    ensures ht.tableLength > 0 ==> old(Ascending(visited, ht.tableLength))
    ensures old(ht.Valid()) ==> ht.Valid()
    ensures (old(ht.Amortised()) ==> ht.Amortised()) && (old(ht.Compensated()) ==> ht.Compensated())
  {
    hide Linked, BucketNum, ByHash, ht.Shape, ht.Lawful, Dropped, Rest, NoTwins, Paid, Covered, Ascending;
    VisitOrder(ht);
    if ht.tableLength > 0 {
      VisitAscends(ht);
    }
    ht.FewerAll();
    visited := VisitLoop(ht, keep);
  }

  /** The order of buckets, as the hashes of the elements tell it. */
  ghost predicate Ascending<K>(c: seq<Node<K>>, len: nat)
    requires len > 0
    reads c
  {
    forall i, j | 0 <= i < j < |c| :: c[i].hash % len <= c[j].hash % len
  }

  lemma VisitAscends<K(!new)>(ht: Table<K>)
    requires ht.Shape() && ht.tableLength > 0
    ensures Ascending(Rest(ht.chains, 0), ht.tableLength)
  {
    hide Linked, Rest;
    var where, s := ByHash(ht.nodes, ht.tableLength), Rest(ht.chains, 0);
    LinkedPlaced(ht.table, ht.chains, where);
    forall i, j | 0 <= i < j < |s| ensures s[i].hash % ht.tableLength <= s[j].hash % ht.tableLength {
      RestAscends(ht.chains, where, 0, i, j);
    }
  }

  lemma DroppedNone<N>(all: set<N>, keep: N -> bool)
    ensures all - Dropped([], keep) == all
  {
  }

  lemma AheadEnd<N>(chains: seq<seq<N>>, at: Place)
    requires at.End?
    ensures Ahead(chains, at) == []
  {
  }

  lemma VisitOrder<K(!new)>(ht: Table<K>)
    requires ht.Shape()
    ensures NoRepeats(Rest(ht.chains, 0)) && Elements(Rest(ht.chains, 0)) == ht.nodes
    ensures |Rest(ht.chains, 0)| == |ht.nodes|
  {
    hide Linked, BucketNum;
    ghost var where := ByHash(ht.nodes, ht.tableLength);
    LinkedPlaced(ht.table, ht.chains, where);
    CountNodes(ht.chains, where);
    RestNoRepeats(ht.chains, where, 0);
  }

  // ---- HT_FOREACH_FN ----

  /** The callback's data after it was applied to the elements of `c` in order. */
  ghost function Fold<N, D>(c: seq<N>, fn: (N, D) -> (bool, D), d: D): D {
    if c == [] then d else Fold(c[1..], fn, fn(c[0], d).1)
  }

  /** The elements of `c` for which the callback asked for removal. */
  ghost function Rejected<N, D>(c: seq<N>, fn: (N, D) -> (bool, D), d: D): set<N> {
    if c == [] then {}
    else (if fn(c[0], d).0 then {c[0]} else {}) + Rejected(c[1..], fn, fn(c[0], d).1)
  }

  /** The callback gets each element with the data the elements before it left, and is asked once. */
  lemma {:induction false} FoldMore<N, D>(c: seq<N>, n: N, fn: (N, D) -> (bool, D), d: D)
    ensures Fold(c + [n], fn, d) == fn(n, Fold(c, fn, d)).1
    ensures Rejected(c + [n], fn, d) == Rejected(c, fn, d) + (if fn(n, Fold(c, fn, d)).0 then {n} else {})
    decreases |c|
  {
    var all := c + [n];
    if c == [] {
      assert all == [n] && all[1..] == [];
    } else {
      assert all[0] == c[0] && all[1..] == c[1..] + [n];
      FoldMore(c[1..], n, fn, fn(c[0], d).1);
    }
  }

  /** What the loop still has to do, as seen from element `k` of bucket `b`. */
  ghost predicate Owes<N, D>(chains: seq<seq<N>>, b: nat, k: nat, nodes: set<N>, fn: (N, D) -> (bool, D), d: D,
                             end: D, left: set<N>)
  {
    && b < |chains| && k <= |chains[b]|
    && var c := chains[b][k..] + Rest(chains, b + 1);
       Fold(c, fn, d) == end && nodes - Rejected(c, fn, d) == left
  }

  lemma OwesKept<N, D>(chains: seq<seq<N>>, b: nat, k: nat, nodes: set<N>, fn: (N, D) -> (bool, D), d: D,
                       end: D, left: set<N>)
    requires Owes(chains, b, k, nodes, fn, d, end, left) && k < |chains[b]| && !fn(chains[b][k], d).0
    ensures Owes(chains, b, k + 1, nodes, fn, fn(chains[b][k], d).1, end, left)
  {
    var c := chains[b][k..] + Rest(chains, b + 1);
    assert c[1..] == chains[b][k + 1..] + Rest(chains, b + 1);
  }

  lemma OwesRemoved<N, D>(chains: seq<seq<N>>, b: nat, k: nat, nodes: set<N>, fn: (N, D) -> (bool, D), d: D,
                          end: D, left: set<N>)
    requires Owes(chains, b, k, nodes, fn, d, end, left) && k < |chains[b]| && fn(chains[b][k], d).0
    ensures Owes(RemoveAt(chains, b, k), b, k, nodes - {chains[b][k]}, fn, fn(chains[b][k], d).1, end, left)
  {
    var c, n := chains[b][k..] + Rest(chains, b + 1), chains[b][k];
    var c' := RemoveAt(chains, b, k)[b][k..] + Rest(RemoveAt(chains, b, k), b + 1);
    AheadAfterRemove(chains, b, k);
    assert c == [n] + c' && c[1..] == c';
    assert nodes - Rejected(c, fn, d) == nodes - {n} - Rejected(c', fn, fn(n, d).1);
  }

  lemma OwesNext<N, D>(chains: seq<seq<N>>, b: nat, nodes: set<N>, fn: (N, D) -> (bool, D), d: D,
                       end: D, left: set<N>)
    requires b < |chains| && Owes(chains, b, |chains[b]|, nodes, fn, d, end, left)
    ensures if b + 1 < |chains| then Owes(chains, b + 1, 0, nodes, fn, d, end, left) else d == end && nodes == left
  {
    assert chains[b][|chains[b]|..] + Rest(chains, b + 1) == Rest(chains, b + 1);
    if b + 1 < |chains| {
      assert chains[b + 1][0..] + Rest(chains, b + 2) == Rest(chains, b + 1);
    }
  }

  /** One turn of the inner loop. */
  method ForeachStep<K(!new), D>(ht: Table<K>, fn: (Node<K>, D) -> (bool, D), d: D,
                                 link: Node<K> -> Node?<K>, hash: Node<K> -> unsigned, p: SlotPtr<K>, n: Node<K>,
                                 ghost b: nat, ghost k: nat, ghost end: D, ghost left: set<Node<K>>)
    returns (d': D, p': SlotPtr<K>, ghost k': nat)
    requires ht.Shape() && Owes(ht.chains, b, k, ht.nodes, fn, d, end, left)
    requires k < |ht.chains[b]| && n == ht.chains[b][k] && p == SlotAt(ht.chains, b, k)
    modifies ht.table, ht.nodes`next, ht.nodes`hash, ht`nEntries, ht`chains, ht`nodes
    ensures ht.Shape() && Owes(ht.chains, b, k', ht.nodes, fn, d', end, left)
    ensures ht.nodes <= old(ht.nodes) && |ht.chains| == old(|ht.chains|)
    ensures p' == SlotAt(ht.chains, b, k') && |ht.chains[b]| - k' < old(|ht.chains[b]|) - k
  {
    hide Linked, BucketNum, ByHash, ht.Shape;
    StoredAt(ht, b, k);
    var nextp, next := After(n), n.next;
    var (remove, d1) := fn(n, d);
    d' := d1;
    if remove {
      OwesRemoved(ht.chains, b, k, ht.nodes, fn, d, end, left);
      ht.LinkOutOverwritten(p, n, next, link(n), hash(n), b, k);
      p', k' := p, k;
    } else {
      OwesKept(ht.chains, b, k, ht.nodes, fn, d, end, left);
      p', k' := nextp, k + 1;
    }
  }

  lemma StoredAt<K(!new)>(ht: Table<K>, b: nat, k: nat)
    requires ht.Shape() && b < |ht.chains| && k < |ht.chains[b]|
    ensures ht.chains[b][k] in ht.nodes
  {
    LinkedNext(ht.table, ht.chains, ByHash(ht.nodes, ht.tableLength), b, k);
  }

  method ForeachBucket<K(!new), D>(ht: Table<K>, fn: (Node<K>, D) -> (bool, D), d: D,
                                   link: Node<K> -> Node?<K>, hash: Node<K> -> unsigned, b: nat,
                                   ghost end: D, ghost left: set<Node<K>>)
    returns (d': D)
    requires ht.Shape() && b < ht.tableLength && Owes(ht.chains, b, 0, ht.nodes, fn, d, end, left)
    modifies ht.table, ht.nodes`next, ht.nodes`hash, ht`nEntries, ht`chains, ht`nodes
    ensures ht.Shape() && ht.nodes <= old(ht.nodes) && |ht.chains| == old(|ht.chains|)
    ensures if b + 1 < |ht.chains| then Owes(ht.chains, b + 1, 0, ht.nodes, fn, d', end, left)
            else d' == end && ht.nodes == left
  {
    hide Linked, BucketNum, ByHash, ht.Shape, Owes;
    d' := d;
    var p := Head(b);
    ghost var k: nat := 0;
    OwesBounds(ht.chains, b, k, ht.nodes, fn, d, end, left);
    var n := Peek(ht, p, b, k);
    while n != null
      invariant ht.Shape() && Owes(ht.chains, b, k, ht.nodes, fn, d', end, left)
      invariant ht.nodes <= old(ht.nodes) && |ht.chains| == old(|ht.chains|)
      invariant b < |ht.chains| && k <= |ht.chains[b]| && p == SlotAt(ht.chains, b, k) && n == At(ht.chains[b], k)
      decreases |ht.chains[b]| - k
    {
      d', p, k := ForeachStep(ht, fn, d', link, hash, p, n, b, k, end, left);
      OwesBounds(ht.chains, b, k, ht.nodes, fn, d', end, left);
      n := Peek(ht, p, b, k);
    }
    assert k == |ht.chains[b]|;
    OwesNext(ht.chains, b, ht.nodes, fn, d', end, left);
  }

  lemma OwesBounds<N, D>(chains: seq<seq<N>>, b: nat, k: nat, nodes: set<N>, fn: (N, D) -> (bool, D), d: D,
                         end: D, left: set<N>)
    requires Owes(chains, b, k, nodes, fn, d, end, left)
    ensures b < |chains| && k <= |chains[b]|
  {
  }

  lemma OwesAll<N, D>(chains: seq<seq<N>>, nodes: set<N>, fn: (N, D) -> (bool, D), d: D)
    requires chains != []
    ensures Owes(chains, 0, 0, nodes, fn, d, Fold(Rest(chains, 0), fn, d), nodes - Rejected(Rest(chains, 0), fn, d))
  {
    assert chains[0][0..] + Rest(chains, 1) == Rest(chains, 0);
  }

  method ForeachLoop<K(!new), D>(ht: Table<K>, fn: (Node<K>, D) -> (bool, D), d: D,
                                 link: Node<K> -> Node?<K>, hash: Node<K> -> unsigned)
    returns (d': D)
    requires ht.Shape()
    modifies ht.table, ht.nodes`next, ht.nodes`hash, ht`nEntries, ht`chains, ht`nodes
    ensures ht.Shape() && ht.nodes <= old(ht.nodes)
    ensures d' == Fold(Rest(old(ht.chains), 0), fn, d)
    ensures ht.nodes == old(ht.nodes) - Rejected(Rest(old(ht.chains), 0), fn, d)
  {
    hide Linked, BucketNum, ByHash, ht.Shape, Owes;
    ghost var all, order := ht.nodes, Rest(ht.chains, 0);
    ghost var end, left := Fold(order, fn, d), all - Rejected(order, fn, d);
    d' := d;
    BucketCount(ht);
    if ht.tableLength == 0 {
      return;
    }
    OwesAll(ht.chains, all, fn, d);
    var b := 0;
    while b < ht.tableLength
      invariant ht.Shape() && ht.nodes <= all && |ht.chains| == ht.tableLength
      invariant if b < ht.tableLength then Owes(ht.chains, b, 0, ht.nodes, fn, d', end, left)
                else d' == end && ht.nodes == left
    {
      d' := ForeachBucket(ht, fn, d', link, hash, b, end, left);
      b := b + 1;
    }
  }

  /**
   HT_FOREACH_FN: the callback sees every element once, in bucket order, and those it rejects leave.
   What it does to an element it rejects, `link` and `hash` say, makes no difference.
   */
  method ForeachFn<K(!new), D>(ht: Table<K>, fn: (Node<K>, D) -> (bool, D), d: D,
                               link: Node<K> -> Node?<K>, hash: Node<K> -> unsigned)
    returns (d': D)
    requires ht.Sound()
    modifies ht.table, ht.nodes`next, ht.nodes`hash, ht`nEntries, ht`chains, ht`nodes
    ensures ht.Sound()
    ensures d' == Fold(Rest(old(ht.chains), 0), fn, d)
    ensures ht.nodes == old(ht.nodes) - Rejected(Rest(old(ht.chains), 0), fn, d)
    ensures NoRepeats(Rest(old(ht.chains), 0)) && Elements(Rest(old(ht.chains), 0)) == old(ht.nodes)
    ensures old(ht.Valid()) ==> ht.Valid()
    ensures (old(ht.Amortised()) ==> ht.Amortised()) && (old(ht.Compensated()) ==> ht.Compensated())
  {
    hide Linked, BucketNum, ByHash, ht.Shape, ht.Lawful, Rest, NoTwins, Paid, Covered, Fold, Rejected;
    VisitOrder(ht);
    ht.FewerAll();
    d' := ForeachLoop(ht, fn, d, link, hash);
  }

  lemma BucketCount<K(!new)>(ht: Table<K>)
    requires ht.Shape()
    ensures |ht.chains| == ht.tableLength && (ht.tableLength == 0 ==> ht.chains == [])
  {
    LinkedLength(ht.table, ht.chains, ByHash(ht.nodes, ht.tableLength));
  }
}
