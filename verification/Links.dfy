module Links {
  import opened Chains

  const U32: nat := 0x1_0000_0000

  type unsigned = x: nat | x < 0x1_0000_0000

  /** An element: its key never changes, `hte_next` and `hte_hash` are the table's to write. */
  class Node<K> {
    const key: K
    var next: Node?<K>
    var hash: unsigned

    constructor (key: K)
      ensures this.key == key && next == null
    {
      this.key, next, hash := key, null, 0;
    }
  }

  /** The address of a link: the head of bucket `b`, or the `hte_next` field of `pred`. */
  datatype SlotPtr<K> = Null | Head(b: nat) | After(pred: Node<K>)

  function At<K>(c: seq<Node<K>>, i: nat): Node?<K> {
    if i < |c| then c[i] else null
  }

  /** The link that holds element `k` of bucket `b`, or the final null link when `k == |chains[b]|`. */
  function SlotAt<K>(chains: seq<seq<Node<K>>>, b: nat, k: nat): (p: SlotPtr<K>)
    requires b < |chains| && k <= |chains[b]|
    ensures p != Null && (p.Head? ==> p.b == b)
  {
    if k == 0 then Head(b) else After(chains[b][k - 1])
  }

  /** Following `hte_next` from `head` gives exactly the nodes of `c`. */
  ghost predicate Chain<K>(head: Node?<K>, c: seq<Node<K>>)
    reads c
  {
    head == At(c, 0) && forall i {:trigger c[i].next} | 0 <= i < |c| :: c[i].next == At(c, i + 1)
  }

  /** The links in memory spell out `chains`. */
  ghost predicate Linked<K>(t: array<Node?<K>>, chains: seq<seq<Node<K>>>, where: map<Node<K>, nat>)
    reads t, where.Keys
  {
    && Placed(chains, where)
    && t.Length == |chains|
    && (forall b | 0 <= b < |chains| :: Chain(t[b], chains[b]))
  }

  lemma LinkedLength<K>(t: array<Node?<K>>, chains: seq<seq<Node<K>>>, where: map<Node<K>, nat>)
    requires Linked(t, chains, where)
    ensures |chains| == t.Length
  {
  }

  lemma LinkedPlaced<K>(t: array<Node?<K>>, chains: seq<seq<Node<K>>>, where: map<Node<K>, nat>)
    requires Linked(t, chains, where)
    ensures Placed(chains, where)
  {
  }

  lemma LinkedNext<K>(t: array<Node?<K>>, chains: seq<seq<Node<K>>>, where: map<Node<K>, nat>, b: nat, k: nat)
    requires Linked(t, chains, where) && b < |chains| && k < |chains[b]|
    ensures chains[b][k] in where && where[chains[b][k]] == b && chains[b][k].next == At(chains[b], k + 1)
  {
    assert Chain(t[b], chains[b]);
  }

  /** `*p` for the link to element `k` of bucket `b`. */
  method Fetch<K>(t: array<Node?<K>>, p: SlotPtr<K>,
                  ghost chains: seq<seq<Node<K>>>, ghost where: map<Node<K>, nat>, ghost b: nat, ghost k: nat)
    returns (n: Node?<K>)
    requires Linked(t, chains, where)
    requires b < |chains| && k <= |chains[b]| && p == SlotAt(chains, b, k)
    ensures n == At(chains[b], k)
  {
    assert Chain(t[b], chains[b]);
    n := if p.Head? then t[p.b] else p.pred.next;
  }

  method Store<K>(t: array<Node?<K>>, p: SlotPtr<K>, n: Node?<K>)
    requires p != Null
    requires p.Head? ==> p.b < t.Length
    modifies if p.Head? then {t} else {}
    modifies (if p.After? then {p.pred} else {})`next
    ensures p.Head? ==> t[..] == old(t[..])[p.b := n]
    ensures p.After? ==> p.pred.next == n
  {
    if p.Head? {
      t[p.b] := n;
    } else {
      p.pred.next := n;
    }
  }

  /** Rewriting the one link to element `k` so that it skips that element leaves a chain. */
  lemma ChainCut<K>(h: Node?<K>, c: seq<Node<K>>, k: nat)
    requires k < |c|
    requires forall i {:trigger c[i].next} | 0 <= i < |c| && i != k && i + 1 != k :: c[i].next == At(c, i + 1)
    requires if k == 0 then h == At(c, 1) else h == c[0] && c[k - 1].next == At(c, k + 1)
    ensures Chain(h, Cut(c, k))
  {
    var c' := Cut(c, k);
    forall i | 0 <= i < |c'| ensures c'[i].next == At(c', i + 1) {
      var j := if i < k then i else i + 1;
      assert c'[i] == c[j];
      assert i + 1 != k ==> c[j].next == At(c, j + 1);
    }
  }

  method Unlink<K>(t: array<Node?<K>>, p: SlotPtr<K>, v: Node?<K>,
                   ghost chains: seq<seq<Node<K>>>, ghost where: map<Node<K>, nat>, ghost b: nat, ghost k: nat)
    requires Linked(t, chains, where)
    requires b < |chains| && k < |chains[b]| && p == SlotAt(chains, b, k)
    requires v == At(chains[b], k + 1)
    modifies t, where.Keys`next
    ensures Linked(t, RemoveAt(chains, b, k), where - {chains[b][k]})
    ensures chains[b][k].next == old(chains[b][k].next)
    ensures p == SlotAt(RemoveAt(chains, b, k), b, k)
  {
    Store(t, p, v);
    ChainCut(t[b], chains[b], k);
    forall d | 0 <= d < |chains| && d != b ensures Chain(t[d], chains[d]) {
      assert p.After? ==> p.pred !in chains[d];
      assert old(Chain(t[d], chains[d]));
    }
    RemoveAtPlaced(chains, where, b, k);
  }

  /**
   The same after element `k` was overwritten: its successor `v` was read before, and nothing of the
   element itself is needed.
   */
  method UnlinkOverwritten<K>(t: array<Node?<K>>, p: SlotPtr<K>, n: Node<K>, v: Node?<K>, link: Node?<K>,
                              ghost chains: seq<seq<Node<K>>>, ghost where: map<Node<K>, nat>,
                              ghost b: nat, ghost k: nat)
    requires Linked(t, chains, where)
    requires b < |chains| && k < |chains[b]| && p == SlotAt(chains, b, k) && n == chains[b][k]
    requires v == At(chains[b], k + 1)
    modifies t, where.Keys`next
    ensures Linked(t, RemoveAt(chains, b, k), where - {n}) && n.next == link
    ensures p == SlotAt(RemoveAt(chains, b, k), b, k)
  {
    n.next := link;
    Store(t, p, v);
    ChainCut(t[b], chains[b], k);
    forall d | 0 <= d < |chains| && d != b ensures Chain(t[d], chains[d]) {
      assert n !in chains[d] && (p.After? ==> p.pred !in chains[d]);
      assert old(Chain(t[d], chains[d]));
    }
    RemoveAtPlaced(chains, where, b, k);
  }

  /** `n->next = t[b]; t[b] = n`. */
  method Push<K>(t: array<Node?<K>>, b: nat, n: Node<K>,
                 ghost chains: seq<seq<Node<K>>>, ghost where: map<Node<K>, nat>)
    requires Linked(t, chains, where)
    requires b < t.Length && n !in where
    modifies t, n`next
    ensures Linked(t, PushFront(chains, b, n), where[n := b])
  {
    n.next := t[b];
    t[b] := n;
    forall d | 0 <= d < |chains| ensures Chain(t[d], PushFront(chains, b, n)[d]) {
      assert n !in chains[d];
      assert old(Chain(t[d], chains[d]));
    }
    PushFrontPlaced(chains, where, b, n);
  }

  /** The link to the first node of bucket `b` equal to `key`, else the null link at its end. */
  method FindSlot<K>(t: array<Node?<K>>, b: nat, key: K, eqfn: (K, K) -> bool,
                     ghost chains: seq<seq<Node<K>>>, ghost where: map<Node<K>, nat>)
    returns (p: SlotPtr<K>, r: Node?<K>, ghost k: nat)
    requires Linked(t, chains, where) && b < |chains|
    ensures k <= |chains[b]| && p == SlotAt(chains, b, k) && r == At(chains[b], k)
    ensures r != null ==> eqfn(r.key, key)
    ensures r == null ==> forall n | n in where && where[n] == b :: !eqfn(n.key, key)
  {
    k, p := 0, Head(b);
    r := Fetch(t, p, chains, where, b, k);
    while r != null
      invariant k <= |chains[b]| && p == SlotAt(chains, b, k) && r == At(chains[b], k)
      invariant forall n | n in chains[b][..k] :: !eqfn(n.key, key)
      decreases |chains[b]| - k
    {
      if eqfn(r.key, key) {
        return;
      }
      p, k := After(r), k + 1;
      r := Fetch(t, p, chains, where, b, k);
    }
    assert chains[b][..k] == chains[b];
  }

  /** Putting `n` in place of element `k`, with that element's successor, leaves a chain. */
  lemma ChainSwap<K>(h: Node?<K>, c: seq<Node<K>>, k: nat, n: Node<K>)
    requires k < |c|
    requires forall i {:trigger c[i].next} | 0 <= i < |c| && i != k && i + 1 != k :: c[i].next == At(c, i + 1)
    requires n.next == At(c, k + 1)
    requires if k == 0 then h == n else h == c[0] && c[k - 1].next == n
    ensures Chain(h, c[k := n])
  {
    var c' := c[k := n];
    forall i | 0 <= i < |c'| ensures c'[i].next == At(c', i + 1) {
      assert i != k && i + 1 != k ==> c[i].next == At(c, i + 1);
    }
  }

  /** `r = *p; *p = n; n->next = r->next; r->next = NULL`: `n` takes the place of element `k` of bucket `b`. */
  method Displace<K>(t: array<Node?<K>>, p: SlotPtr<K>, r: Node<K>, n: Node<K>,
                     ghost chains: seq<seq<Node<K>>>, ghost where: map<Node<K>, nat>, ghost b: nat, ghost k: nat)
    requires Linked(t, chains, where) && n !in where
    requires b < |chains| && k < |chains[b]| && p == SlotAt(chains, b, k) && r == chains[b][k]
    modifies t, where.Keys`next, n`next
    ensures Linked(t, chains[b := chains[b][k := n]], (where - {r})[n := b])
    ensures r.next == null
  {
    Store(t, p, n);
    n.next := r.next;
    r.next := null;
    ChainSwap(t[b], chains[b], k, n);
    forall d | 0 <= d < |chains| && d != b ensures Chain(t[d], chains[d]) {
      assert p.After? ==> p.pred !in chains[d];
      assert r !in chains[d] && n !in chains[d];
      assert old(Chain(t[d], chains[d]));
    }
    ReplaceAtPlaced(chains, where, b, k, n);
  }

  /** `*p = n` for the null link at the end of bucket `b`. */
  method Append<K>(t: array<Node?<K>>, p: SlotPtr<K>, n: Node<K>,
                   ghost chains: seq<seq<Node<K>>>, ghost where: map<Node<K>, nat>, ghost b: nat)
    requires Linked(t, chains, where) && n !in where && n.next == null
    requires b < |chains| && p == SlotAt(chains, b, |chains[b]|)
    modifies t, where.Keys`next
    ensures Linked(t, chains[b := chains[b] + [n]], where[n := b])
  {
    Store(t, p, n);
    ghost var c := chains[b];
    ghost var c' := c + [n];
    assert old(Chain(t[b], c));
    forall i | 0 <= i < |c'| ensures c'[i].next == At(c', i + 1) {
      assert i < |c| ==> old(c[i].next) == At(c, i + 1);
    }
    forall d | 0 <= d < |chains| && d != b ensures Chain(t[d], chains[d]) {
      assert p.After? ==> p.pred !in chains[d];
      assert old(Chain(t[d], chains[d]));
    }
    AppendPlaced(chains, where, b, n);
  }

  /** HT_BUCKET_NUM_ for a hash; a table of length 0 has no buckets. */
  function BucketNum(hash: unsigned, len: nat): (b: nat)
    ensures len > 0 ==> b < len
  {
    if len == 0 then 0 else hash % len
  }

  /** A hash goes some whole number of times around the table, and then as far as its bucket. */
  lemma BucketNumIs(hash: unsigned, len: nat) returns (turns: nat)
    requires len > 0
    ensures hash == turns * len + BucketNum(hash, len)
  {
    turns := hash / len;
  }

  /** The bucket every node belongs to in a table of length `len`. */
  ghost function ByHash<K>(nodes: set<Node<K>>, len: nat): (where: map<Node<K>, nat>)
    reads nodes`hash
    ensures where.Keys == nodes
  {
    map n | n in nodes :: BucketNum(n.hash, len)
  }

  /** The chains hold `nodes`, each in the bucket whose number its hash leaves as remainder. */
  ghost predicate Hashed<K>(chains: seq<seq<Node<K>>>, nodes: set<Node<K>>, len: nat)
    requires len > 0
    reads nodes`hash
  {
    && |chains| == len
    && (forall n | n in nodes :: n in chains[n.hash % len])
    && (forall b, n | 0 <= b < len && n in chains[b] :: n in nodes && n.hash % len == b)
  }

  lemma LinkedHashed<K>(t: array<Node?<K>>, chains: seq<seq<Node<K>>>, nodes: set<Node<K>>)
    requires t.Length > 0 && Linked(t, chains, ByHash(nodes, t.Length))
    ensures Hashed(chains, nodes, t.Length)
  {
    hide Chain;
    var where := ByHash(nodes, t.Length);
    forall n | n in nodes ensures n in chains[n.hash % t.Length] {
      assert where[n] == n.hash % t.Length;
    }
  }

  lemma ByHashAdd<K>(nodes: set<Node<K>>, n: Node<K>, len: nat)
    ensures ByHash(nodes, len)[n := BucketNum(n.hash, len)] == ByHash(nodes + {n}, len)
  {
  }

  lemma ByHashDrop<K>(nodes: set<Node<K>>, n: Node<K>, len: nat)
    ensures ByHash(nodes, len) - {n} == ByHash(nodes - {n}, len)
  {
  }

  /** Pushing a node onto the bucket of its hash. */
  method PushHashed<K>(t: array<Node?<K>>, n: Node<K>, ghost chains: seq<seq<Node<K>>>, ghost nodes: set<Node<K>>)
    returns (ghost chains': seq<seq<Node<K>>>)
    requires t.Length > 0 && Linked(t, chains, ByHash(nodes, t.Length)) && n !in nodes
    modifies t, n`next
    ensures Linked(t, chains', ByHash(nodes + {n}, t.Length))
    ensures |chains| == t.Length && chains' == PushFront(chains, BucketNum(n.hash, t.Length), n)
  {
    hide Linked, BucketNum, ByHash;
    LinkedLength(t, chains, ByHash(nodes, t.Length));
    var b := BucketNum(n.hash, t.Length);
    ghost var where := ByHash(nodes, t.Length);
    Push(t, b, n, chains, where);
    assert where == ByHash(nodes, t.Length);
    chains' := PushFront(chains, b, n);
    ByHashAdd(nodes, n, t.Length);
  }

  lemma LinkedEmpty<K>(t: array<Node?<K>>)
    requires t.Length == 0
    ensures Linked(t, [], ByHash({}, 0))
  {
  }

  lemma ChainRest<K>(h: Node?<K>, c: seq<Node<K>>)
    requires h != null && Chain(h, c)
    ensures c != [] && h == c[0] && Chain(h.next, c[1..])
  {
    var r := c[1..];
    assert c[0].next == At(r, 0);
    forall i | 0 <= i < |r| ensures r[i].next == At(r, i + 1) {
      assert c[i + 1].next == At(c, i + 2);
    }
  }
}
