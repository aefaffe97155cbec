/** ht.h: the self-check HT_REP_IS_BAD_, on heads whose links are finite but otherwise arbitrary. */
module HashCheck {
  import opened Chains
  import opened Links
  import opened Growth
  import opened HashTable

  ghost function NodesOf<N>(chains: seq<seq<N>>): set<N> {
    set b, i | 0 <= b < |chains| && 0 <= i < |chains[b]| :: chains[b][i]
  }

  /** The check can follow the links: from each bucket they end in null. */
  ghost predicate Walkable<K(!new)>(ht: Table<K>, chains: seq<seq<Node<K>>>)
    reads ht, ht.table, NodesOf(chains)
  {
    && -1 <= ht.primeIdx < |ht.sizes|
    && |chains| == ht.table.Length == ht.tableLength
    && forall b | 0 <= b < |chains| :: Chain(ht.table[b], chains[b])
  }

  ghost predicate GoodNode<K(!new)>(ht: Table<K>, n: Node<K>, b: nat)
    reads ht, n
  {
    n.hash == ht.hashfn(n.key) && BucketNum(n.hash, ht.tableLength) == b
  }

  ghost predicate GoodBucket<K(!new)>(ht: Table<K>, c: seq<Node<K>>, b: nat, k: nat)
    requires k <= |c|
    reads ht, c
  {
    forall i | 0 <= i < k :: GoodNode(ht, c[i], b)
  }

  /** Node `k` of bucket `b` is the first the check complains about. */
  ghost predicate FirstBad<K(!new)>(ht: Table<K>, chains: seq<seq<Node<K>>>, b: nat, k: nat)
    reads ht, NodesOf(chains)
  {
    && b < |chains| && k < |chains[b]| && !GoodNode(ht, chains[b][k], b)
    && GoodBucket(ht, chains[b], b, k)
    && forall d | 0 <= d < b :: GoodBucket(ht, chains[d], d, |chains[d]|)
  }

  /** What it says about it: the cached hash is looked at before the place. */
  ghost function Complaint<K(!new)>(ht: Table<K>, n: Node<K>, b: nat): int
    reads ht, n
  {
    if n.hash != ht.hashfn(n.key) then 1000 + b else 10000 + b
  }

  /** What the check is after. */
  ghost predicate Consistent<K(!new)>(ht: Table<K>, chains: seq<seq<Node<K>>>)
    requires -1 <= ht.primeIdx < |ht.sizes|
    reads ht, NodesOf(chains)
  {
    if ht.tableLength == 0 then ht.nEntries == 0 && ht.loadLimit == 0 && ht.primeIdx == -1
    else
      && ht.primeIdx >= 0 && ht.loadLimit != 0 && ht.nEntries <= ht.loadLimit
      && ht.tableLength == ht.sizes[ht.primeIdx] && ht.loadLimit == LoadLimit(ht.tableLength)
      && GoodBuckets(ht, chains)
      && ht.nEntries == |Rest(chains, 0)| % U32
  }

  method CheckBucket<K(!new)>(ht: Table<K>, b: nat, n0: unsigned, ghost chains: seq<seq<Node<K>>>, ghost seen: nat)
    returns (r: int, n: unsigned, ghost k: nat)
    requires Walkable(ht, chains) && b < |chains| && n0 == seen % U32
    ensures if GoodBucket(ht, chains[b], b, |chains[b]|) then r == 0
            else k < |chains[b]| && GoodBucket(ht, chains[b], b, k) && !GoodNode(ht, chains[b][k], b) &&
                 r == Complaint(ht, chains[b][k], b)
    ensures r == 0 ==> n == (seen + |chains[b]|) % U32
  {
    hide Chain, BucketNum, LoadLimit;
    ghost var c := chains[b];
    k := 0;
    var elm := ht.table[b];
    n := n0;
    ChainStart(elm, c);
    while elm != null
      invariant 0 <= k <= |c| && elm == At(c, k) && GoodBucket(ht, c, b, k)
      invariant n == (seen + k) % U32
      decreases |c| - k
    {
      ChainNext(ht.table[b], c, k);
      CountUp(seen + k, n);
      if elm.hash != ht.hashfn(elm.key) {
        assert !GoodNode(ht, c[k], b);
        return 1000 + b, n, k;
      }
      if BucketNum(elm.hash, ht.tableLength) != b {
        assert !GoodNode(ht, c[k], b);
        return 10000 + b, n, k;
      }
      n := (n + 1) % U32;
      elm := elm.next;
      k := k + 1;
    }
    r := 0;
  }

  ghost predicate GoodBuckets<K(!new)>(ht: Table<K>, chains: seq<seq<Node<K>>>)
    reads ht, NodesOf(chains)
  {
    forall b | 0 <= b < |chains| :: GoodBucket(ht, chains[b], b, |chains[b]|)
  }

  lemma ChainStart<K>(h: Node?<K>, c: seq<Node<K>>)
    requires Chain(h, c)
    ensures h == At(c, 0)
  {
  }

  lemma ChainNext<K>(h: Node?<K>, c: seq<Node<K>>, k: nat)
    requires Chain(h, c) && k < |c|
    ensures c[k].next == At(c, k + 1)
  {
  }

  /** HT_REP_IS_BAD_ returns 0 exactly on the consistent heads, and otherwise names the first thing wrong. */
  method RepIsBad<K(!new)>(ht: Table<K>, ghost chains: seq<seq<Node<K>>>) returns (r: int)
    requires Walkable(ht, chains)
    ensures r == 0 <==> Consistent(ht, chains)
    ensures if ht.tableLength == 0 then r == 0 || r == 1
            else if ht.primeIdx < 0 || ht.loadLimit == 0 then r == 2
            else if ht.nEntries > ht.loadLimit then r == 3
            else if ht.tableLength != ht.sizes[ht.primeIdx] then r == 4
            else if ht.loadLimit != LoadLimit(ht.tableLength) then r == 5
            else if GoodBuckets(ht, chains) then r == 0 || r == 6
            else exists b: nat, k: nat :: FirstBad(ht, chains, b, k) && r == Complaint(ht, chains[b][k], b)
  {
    hide Chain, GoodBucket, GoodNode, LoadLimit, BucketNum;
    if ht.tableLength == 0 {
      return if ht.nEntries == 0 && ht.loadLimit == 0 && ht.primeIdx == -1 then 0 else 1;
    }
    if ht.primeIdx < 0 || ht.loadLimit == 0 {
      return 2;
    }
    if ht.nEntries > ht.loadLimit {
      return 3;
    }
    if ht.tableLength != ht.sizes[ht.primeIdx] {
      return 4;
    }
    if ht.loadLimit != LoadLimit(ht.tableLength) {
      return 5;
    }
    r := 0;
    var n: unsigned := 0;
    ghost var seen: nat := 0;
    var i := 0;
    while i < ht.tableLength
      invariant 0 <= i <= |chains|
      invariant forall b | 0 <= b < i :: GoodBucket(ht, chains[b], b, |chains[b]|)
      invariant n == seen % U32 && seen + |Rest(chains, i)| == |Rest(chains, 0)|
    {
      ghost var k;
      r, n, k := CheckBucket(ht, i, n, chains, seen);
      if r != 0 {
        assert FirstBad(ht, chains, i, k);
        return;
      }
      seen := seen + |chains[i]|;
      i := i + 1;
    }
    if n != ht.nEntries {
      return 6;
    }
    r := 0;
  }

  /** On a table kept by the operations the check only ever complains about a count above the load limit. */
  lemma OperationsPassCheck<K(!new)>(ht: Table<K>)
    requires ht.Sound()
    ensures Walkable(ht, ht.chains)
    ensures Consistent(ht, ht.chains) <==> ht.nEntries <= ht.loadLimit
    ensures ht.Valid() && ht.primeIdx < |ht.sizes| - 1 ==> Consistent(ht, ht.chains)
  {
    hide Linked, BucketNum, ByHash, Chain, GoodBucket, LoadLimit;
    BucketsAreGood(ht);
    var where := ByHash(ht.nodes, ht.tableLength);
    LinkedPlaced(ht.table, ht.chains, where);
    CountNodes(ht.chains, where);
    assert |Rest(ht.chains, 0)| == |ht.nodes|;
  }

  lemma BucketsAreGood<K(!new)>(ht: Table<K>)
    requires ht.Sound()
    ensures Walkable(ht, ht.chains) && GoodBuckets(ht, ht.chains)
  {
    hide BucketNum, LoadLimit;
    forall b | 0 <= b < |ht.chains| ensures GoodBucket(ht, ht.chains[b], b, |ht.chains[b]|) {
      forall i | 0 <= i < |ht.chains[b]| ensures GoodNode(ht, ht.chains[b][i], b) {
        LinkedNext(ht.table, ht.chains, ByHash(ht.nodes, ht.tableLength), b, i);
      }
    }
  }

  /** A chain that ends in null never comes back to a node. */
  lemma {:induction false} ChainNoRepeats<K>(h: Node?<K>, c: seq<Node<K>>, i: nat, j: nat)
    requires Chain(h, c) && i < j < |c|
    ensures c[i] != c[j]
    decreases |c| - j
  {
    assert c[i].next == At(c, i + 1) && c[j].next == At(c, j + 1);
    if j + 1 < |c| {
      ChainNoRepeats(h, c, i + 1, j + 1);
    }
  }

  /** What the check accepts is a table: the nodes it finds are all linked in the right buckets, and counted. */
  lemma CheckIsSound<K(!new)>(ht: Table<K>, chains: seq<seq<Node<K>>>)
    requires Walkable(ht, chains) && Consistent(ht, chains)
    ensures Linked(ht.table, chains, ByHash(NodesOf(chains), ht.tableLength))
    ensures ht.nEntries == |NodesOf(chains)| % U32 && forall n | n in NodesOf(chains) :: n.hash == ht.hashfn(n.key)
  {
    var nodes := NodesOf(chains);
    var where := ByHash(nodes, ht.tableLength);
    forall b, i | 0 <= b < |chains| && 0 <= i < |chains[b]|
      ensures chains[b][i] in where && where[chains[b][i]] == b && GoodNode(ht, chains[b][i], b)
    {
      assert GoodBucket(ht, chains[b], b, |chains[b]|);
    }
    forall b, i, j | 0 <= b < |chains| && 0 <= i < j < |chains[b]| ensures chains[b][i] != chains[b][j] {
      ChainNoRepeats(ht.table[b], chains[b], i, j);
    }
    assert Placed(chains, where);
    CountNodes(chains, where);
  }
}
