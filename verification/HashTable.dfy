/** ht.h: the intrusive chained hash table, over nodes that carry their own link and cached hash. */
module HashTable {
  import opened Chains
  import opened Links
  import opened Growth
  import Rehash

  /** How the two allocation attempts of HT_GROW end. */
  datatype Alloc = NewTable | OnlyRealloc | NoMemory

  /** The node of `nodes` that is equal to the key `k`, or null: what a finite map from keys says. */
  ghost function Lookup<K>(nodes: set<Node<K>>, eq: (K, K) -> bool, k: K): (r: Node?<K>)
    ensures r != null ==> r in nodes && eq(r.key, k)
    ensures r == null ==> forall n | n in nodes :: !eq(n.key, k)
  {
    if n :| n in nodes && eq(n.key, k) then n else null
  }

  /** No two stored elements are equal. */
  ghost predicate NoTwins<K>(nodes: set<Node<K>>, eq: (K, K) -> bool) {
    forall m, n | m in nodes && n in nodes && eq(m.key, n.key) :: m == n
  }

  lemma CountUp(n: nat, count: unsigned)
    requires count == n % U32
    ensures (count + 1) % U32 == (n + 1) % U32
  {
  }

  lemma CountDown<N>(all: set<N>, n: N, count: unsigned)
    requires n in all && count == |all| % U32
    ensures |all| == |all - {n}| + 1 && (count - 1) % U32 == |all - {n}| % U32
  {
  }

  class Table<K(!new)> {
    const hashfn: K -> unsigned
    const eqfn: (K, K) -> bool
    const sizes: seq<nat>
    var table: array<Node?<K>>               // of length 0 before the first growth, where C has NULL
    var tableLength: unsigned
    var nEntries: unsigned
    var loadLimit: unsigned
    var primeIdx: int

    ghost var nodes: set<Node<K>>            // the stored elements
    ghost var chains: seq<seq<Node<K>>>      // the same, bucket by bucket
    ghost var added: nat                     // elements added since HT_INIT
    ghost var moved: nat                     // elements moved by growths since HT_INIT

    /** `eqfn` is an equivalence and equal keys have equal hashes. */
    ghost predicate Lawful() {
      && GoodSizes(sizes)
      && (forall a :: eqfn(a, a))
      && (forall a, b :: eqfn(a, b) ==> eqfn(b, a) && hashfn(a) == hashfn(b))
      && (forall a, b, c :: eqfn(a, b) && eqfn(b, c) ==> eqfn(a, c))
    }

    /** Length, load limit and position in the list of sizes agree. */
    ghost predicate Sized()
      reads this`table, this`tableLength, this`loadLimit, this`primeIdx
    {
      && tableLength == table.Length
      && (if primeIdx == -1 then tableLength == 0 && loadLimit == 0
          else && 0 <= primeIdx < |sizes| && 0 < tableLength
               && tableLength == sizes[primeIdx]
               && loadLimit == LoadLimit(tableLength))
    }

    /** Sizes, links, cached hashes, placement and count; the count is kept modulo the width of `unsigned`. */
    ghost predicate Shape()
      reads this`table, this`tableLength, this`nEntries, this`loadLimit, this`primeIdx, this`nodes, this`chains
      reads table, nodes
    {
      && Sized()
      && Linked(table, chains, ByHash(nodes, tableLength))
      && (forall n | n in nodes :: n.hash == hashfn(n.key))
      && nEntries == |nodes| % U32
    }

    /** What every operation keeps, even when growths fail. */
    ghost predicate Sound()
      reads this, table, nodes
    {
      Lawful() && Shape() && NoTwins(nodes, eqfn)
    }

    /** Below the last size the load limit is respected as well. */
    ghost predicate Valid()
      reads this, table, nodes
    {
      Sound() && (primeIdx < |sizes| - 1 ==> |nodes| <= loadLimit)
    }

    /** All growth so far happened at the load limit, and is paid for by the elements added. */
    ghost predicate Amortised()
      reads this
    {
      primeIdx < |sizes| && Paid(sizes, primeIdx, |nodes|, added, moved)
    }

    /** The same where growths may have failed and come late. */
    ghost predicate Compensated()
      reads this
    {
      primeIdx < |sizes| && Covered(sizes, primeIdx, |nodes|, added, moved)
    }

    /** What growing has cost: a constant number of moves per element added. */
    lemma MovedBound()
      requires Lawful()
      ensures Amortised() ==> moved <= 2 * added + 56 && moved <= 3 * added
      ensures Compensated() ==> moved <= 3 * added + 58 && moved <= 4 * added
    {
      if Amortised() {
        PaidBound(sizes, primeIdx, |nodes|, added, moved);
      }
      if Compensated() {
        CoveredBound(sizes, primeIdx, |nodes|, added, moved);
      }
    }

    constructor (hashfn: K -> unsigned, eqfn: (K, K) -> bool)
      requires forall a :: eqfn(a, a)
      requires forall a, b :: eqfn(a, b) ==> eqfn(b, a) && hashfn(a) == hashfn(b)
      requires forall a, b, c :: eqfn(a, b) && eqfn(b, c) ==> eqfn(a, c)
      ensures Valid() && fresh(table) && nodes == {} && Amortised() && Compensated() && added == moved == 0
      ensures this.hashfn == hashfn && this.eqfn == eqfn && sizes == PRIMES
    {
      PrimesAreGood();
      this.hashfn, this.eqfn, this.sizes := hashfn, eqfn, PRIMES;
      tableLength, nEntries, loadLimit, primeIdx := 0, 0, 0, -1;
      table := new Node?<K>[0];
      nodes, chains, added, moved := {}, [], 0, 0;
    }

    /**
     The next prime whose load limit exceeds `size`. An index past the list of sizes is where the
     loop reads beyond it, which is undefined.
     */
    method NextSize(size: unsigned) returns (idx: nat)
      requires GoodSizes(sizes) && -1 <= primeIdx < |sizes| - 1
      ensures primeIdx < idx <= |sizes| && LooksAt(sizes, primeIdx, size, idx)
      ensures idx < |sizes| ==> size < LoadLimit(sizes[idx])
      ensures idx == |sizes| <==> LoadLimit(sizes[|sizes| - 1]) <= size
    {
      idx := primeIdx + 1;
      var newLen := sizes[idx];
      while LoadLimit(newLen) <= size && idx < |sizes|
        invariant idx < |sizes| && newLen == sizes[idx]
        invariant LooksAt(sizes, primeIdx, size, idx)
        decreases |sizes| - idx
      {
        idx := idx + 1;
        if idx == |sizes| {
          return;
        }
        newLen := sizes[idx];
      }
    }

    /** The last step of HT_GROW: the head takes over the new table. */
    method Install(t: array<Node?<K>>, idx: nat, ghost chains': seq<seq<Node<K>>>, ghost count: nat)
      requires idx < |sizes| && 0 < t.Length == sizes[idx] < U32
      requires Linked(t, chains', ByHash(nodes, t.Length))
      requires nEntries == |nodes| % U32 && forall n | n in nodes :: n.hash == hashfn(n.key)
      modifies this
      ensures Shape() && nodes == old(nodes) && nEntries == old(nEntries) && table == t
      ensures primeIdx == idx && loadLimit == LoadLimit(sizes[idx])
      ensures added == old(added) && moved == old(moved) + count
    {
      hide Linked, BucketNum, ByHash;
      table, tableLength, primeIdx, loadLimit := t, sizes[idx], idx, LoadLimit(sizes[idx]);
      chains, moved := chains', moved + count;
    }

    /** The elements relinked by a growth to the size at `idx`. */
    ghost function Relinked(idx: nat, inPlace: bool): set<Node<K>>
      requires idx < |sizes|
      reads this, nodes
    {
      Rehash.Relinks(ByHash(nodes, tableLength), sizes[idx], inPlace)
    }

    /** The two branches of HT_GROW that move the elements to a table of the size at `idx`. */
    method Rebuild(idx: nat, inPlace: bool)
      requires GoodSizes(sizes) && Shape() && primeIdx < idx < |sizes|
      modifies this, table, nodes`next
      ensures Shape() && nodes == old(nodes) && nEntries == old(nEntries) && fresh(table) && added == old(added)
      ensures primeIdx == idx && loadLimit == LoadLimit(sizes[idx])
      ensures moved == old(moved + |Relinked(idx, inPlace)|) <= old(moved) + |nodes|
    {
      assert 0 < sizes[idx] < U32 && tableLength <= sizes[idx];
      hide Linked, BucketNum, ByHash, GoodSizes, LoadLimit, Rehash.Relinks;
      var t, chains', count := Rehash.Rehash(table, sizes[idx], inPlace, chains, ByHash(nodes, tableLength));
      Install(t, idx, chains', count);
    }

    lemma SizesAre()
      requires Sound()
      ensures GoodSizes(sizes) && |sizes| > 0 && -1 <= primeIdx < |sizes|
      ensures primeIdx >= 0 <==> tableLength > 0
      ensures loadLimit == if primeIdx < 0 then 0 else LoadLimit(sizes[primeIdx])
      ensures |nodes| < U32 ==> nEntries == |nodes|
    {
      hide Linked, BucketNum, ByHash, NoTwins;
    }

    /** In bucket `b` are exactly the stored elements whose hash leaves the remainder `b`. */
    lemma PlacedByHash()
      requires Sound() && tableLength > 0
      ensures Hashed(chains, nodes, tableLength)
    {
      hide Linked, BucketNum, ByHash, NoTwins, Hashed;
      LinkedHashed(table, chains, nodes);
    }

    /** HT_GROW has something to do. */
    ghost predicate Due(size: nat)
      reads this`primeIdx, this`loadLimit
    {
      primeIdx < |sizes| - 1 && loadLimit <= size
    }

    /**
     HT_GROW: a table whose load limit exceeds `size`, holding the same elements. `beyond` tells
     that the search left the list of sizes, after which nothing is defined.
     */
    method Grow(size: unsigned, alloc: Alloc) returns (r: int, beyond: bool)
      requires Sound()
      modifies this, table, nodes`next
      ensures Sound() && nodes == old(nodes) && nEntries == old(nEntries) && added == old(added)
      ensures table == old(table) || fresh(table)
      ensures beyond <==> old(Due(size)) && LoadLimit(sizes[|sizes| - 1]) <= size
      ensures beyond || !old(Due(size)) || alloc == NoMemory ==> unchanged(this)
      ensures !beyond ==> r == if old(Due(size)) && alloc == NoMemory then -1 else 0
      ensures old(primeIdx == |sizes| - 1 || size < loadLimit) ==> r == 0 && !beyond && unchanged(this)
      ensures r == 0 && !beyond ==> primeIdx == |sizes| - 1 || size < loadLimit
      ensures !beyond && old(Due(size)) && alloc != NoMemory ==>
                size < loadLimit && old(primeIdx) < primeIdx && Grown(sizes, old(primeIdx), size, primeIdx) &&
                var idx := primeIdx; moved == old(moved + |Relinked(idx, alloc == OnlyRealloc)|) <= old(moved) + |nodes|
    {
      hide Linked, BucketNum, ByHash, GoodSizes, Lawful, NoTwins, LooksAt, Shape, LoadLimit, Relinked;
      SizesAre();
      if primeIdx == |sizes| - 1 || loadLimit > size {
        return 0, false;
      }
      var idx := NextSize(size);
      if idx == |sizes| {
        return 0, true;
      }
      if alloc == NoMemory {
        return -1, false;
      }
      Rebuild(idx, alloc == OnlyRealloc);
      r, beyond := 0, false;
    }

    /** HT_FIND_P_: the link to the first element equal to `elm`, else the null link ending its bucket. */
    method FindP(elm: Node<K>) returns (p: SlotPtr<K>, r: Node?<K>, ghost k: nat)
      requires Sound() && elm.hash == hashfn(elm.key)
      ensures r == Lookup(nodes, eqfn, elm.key)
      ensures p == Null <==> tableLength == 0
      ensures p == Null ==> r == null
      ensures tableLength > 0 ==>
                var b := BucketNum(elm.hash, tableLength);
                b < |chains| && k <= |chains[b]| && p == SlotAt(chains, b, k) && r == At(chains[b], k)
    {
      if tableLength == 0 {
        return Null, null, 0;
      }
      var b := BucketNum(elm.hash, tableLength);
      p, r, k := FindSlot(table, b, elm.key, eqfn, chains, ByHash(nodes, tableLength));
    }

    /** HT_SET_HASH_ */
    method SetHash(elm: Node<K>)
      requires Sound()
      modifies elm`hash
      ensures Sound() && elm.hash == hashfn(elm.key)
    {
      hide Linked, BucketNum;
      elm.hash := hashfn(elm.key);
      assert ByHash(nodes, tableLength) == old(ByHash(nodes, tableLength));
    }

    method Find(elm: Node<K>) returns (r: Node?<K>)
      requires Sound()
      modifies elm`hash
      ensures Sound() && r == Lookup(nodes, eqfn, elm.key) && (old(Valid()) ==> Valid())
    {
      hide Linked, BucketNum, ByHash, GoodSizes, Lawful, NoTwins, Shape, Lookup;
      SetHash(elm);
      var p, r', k := FindP(elm);
      r := if p == Null then null else r';
    }

    /** HT_INSERT and HT_REPLACE ask for room for one element more, and there is some to be made. */
    ghost predicate Grows()
      reads this
    {
      (tableLength == 0 || nEntries >= loadLimit) && Due((nEntries + 1) % U32)
    }

    /**
     What keeps HT_INSERT and HT_REPLACE defined: the first table can be had, and a growth, if one
     is due, is not asked to go beyond the last size. The second always holds of a valid table.
     */
    ghost predicate CanAdd(alloc: Alloc)
      reads this
    {
      && (tableLength == 0 ==> alloc != NoMemory)
      && |sizes| > 0 && (Grows() ==> (nEntries + 1) % U32 < LoadLimit(sizes[|sizes| - 1]))
    }

    /** A growth of a valid table goes exactly one size up. */
    lemma OneSizeUp()
      requires Valid() && Grows()
      ensures (nEntries + 1) % U32 == |nodes| + 1 < LoadLimit(sizes[|sizes| - 1])
      ensures |nodes| == (if primeIdx < 0 then 0 else LoadLimit(sizes[primeIdx]))
      ensures forall size, j | size == |nodes| + 1 && Grown(sizes, primeIdx, size, j) :: j == primeIdx + 1
    {
      hide Linked, BucketNum, ByHash, NoTwins;
      OneStep(sizes, primeIdx, |nodes|, |nodes| + 1);
    }

    lemma ValidCanAdd(alloc: Alloc)
      requires Valid() && (tableLength == 0 ==> alloc != NoMemory)
      ensures CanAdd(alloc)
    {
      hide Linked, BucketNum, ByHash, NoTwins;
      SizesAre();
      if Grows() {
        OneSizeUp();
      }
    }

    lemma RoomAlready()
      requires Valid() && !Grows()
      ensures primeIdx < |sizes| - 1 ==> |nodes| < loadLimit
    {
      hide Linked, BucketNum, ByHash, NoTwins;
    }

    /** Where the size of a valid table stands after an insertion or replacement: at most one step further. */
    ghost function IdxWithRoom(): int
      reads this
    {
      if Grows() then primeIdx + 1 else primeIdx
    }

    /** The first lines of HT_INSERT and HT_REPLACE; what HT_GROW returns is not looked at. */
    method MakeRoom(alloc: Alloc)
      requires Sound() && CanAdd(alloc)
      modifies this, table, nodes`next
      ensures Sound() && nodes == old(nodes) && nEntries == old(nEntries) && added == old(added)
      ensures (table == old(table) || fresh(table)) && tableLength > 0 && 0 <= primeIdx < |sizes|
      ensures !old(Grows()) || alloc == NoMemory ==> unchanged(this)
      ensures old(Grows()) && alloc != NoMemory ==>
                (nEntries + 1) % U32 < loadLimit &&
                old(primeIdx) < primeIdx && Grown(sizes, old(primeIdx), (nEntries + 1) % U32, primeIdx) &&
                var idx := primeIdx; moved == old(moved + |Relinked(idx, alloc == OnlyRealloc)|) <= old(moved) + |nodes|
    {
      hide Linked, BucketNum, ByHash, NoTwins, Grown, Relinked, Shape, Lawful, GoodSizes, LoadLimit;
      SizesAre();
      if tableLength == 0 || nEntries >= loadLimit {
        var size := (nEntries + 1) % U32;
        var r, beyond := Grow(size, alloc);
      }
      SizesAre();
    }

    /** Both accounts of moved elements, for one element more. */
    ghost predicate PaidForOneMore()
      reads this
    {
      primeIdx < |sizes| && Paid(sizes, primeIdx, |nodes| + 1, added, moved)
    }

    ghost predicate CoveredForOneMore()
      reads this
    {
      primeIdx < |sizes| && Covered(sizes, primeIdx, |nodes| + 1, added, moved)
    }

    /** What HT_INSERT and HT_REPLACE begin with. */
    method Prepare(elm: Node<K>, alloc: Alloc)
      requires Sound() && CanAdd(alloc) && elm !in nodes
      modifies this, table, nodes`next, elm`hash
      ensures Sound() && nodes == old(nodes) && (table == old(table) || fresh(table)) && tableLength > 0
      ensures elm.hash == hashfn(elm.key) && added == old(added) + 1
      ensures old(Valid() && (Grows() ==> alloc != NoMemory)) ==>
                primeIdx == old(IdxWithRoom()) && (primeIdx < |sizes| - 1 ==> |nodes| < loadLimit)
      ensures old(Valid() && Amortised()) ==> PaidForOneMore()
      ensures old(Compensated() && |nodes| + 1 < U32) ==> CoveredForOneMore()
    {
      hide Linked, BucketNum, ByHash, GoodSizes, NoTwins, Lawful, Shape, Paid, Covered, Grown, Relinked, LoadLimit,
           Valid;
      SizesAre();
      if Valid() {
        if Grows() {
          OneSizeUp();
        } else {
          RoomAlready();
        }
      }
      ghost var i, m := primeIdx, moved;
      MakeRoom(alloc);
      SetHash(elm);
      if primeIdx == i || |nodes| + 1 < U32 {
        AddAccounts(sizes, i, primeIdx, |nodes|, added, m, moved);
      }
      added := added + 1;
    }

    /** The bookkeeping after an edit of the links. */
    method Recount(n: unsigned, ghost chains': seq<seq<Node<K>>>, ghost nodes': set<Node<K>>)
      requires Sized() && Linked(table, chains', ByHash(nodes', tableLength))
      requires n == |nodes'| % U32 && forall m | m in nodes' :: m.hash == hashfn(m.key)
      modifies this`nEntries, this`chains, this`nodes
      ensures Shape() && nodes == nodes' && chains == chains'
    {
      hide Linked, BucketNum, ByHash, LoadLimit;
      nEntries, chains, nodes := n, chains', nodes';
    }

    /** The link edit of HT_INSERT. */
    method LinkIn(elm: Node<K>)
      requires Shape() && tableLength > 0 && elm !in nodes && elm.hash == hashfn(elm.key)
      modifies table, elm`next, this`nEntries, this`chains, this`nodes
      ensures Shape() && nodes == old(nodes) + {elm} && |nodes| == |old(nodes)| + 1
    {
      hide Linked, BucketNum, ByHash, LoadLimit;
      CountUp(|nodes|, nEntries);
      ghost var chains' := PushHashed(table, elm, chains, nodes);
      Recount((nEntries + 1) % U32, chains', nodes + {elm});
    }

    lemma NoTwinsAdd(n: Node<K>)
      requires Sound() && Lookup(nodes, eqfn, n.key) == null
      ensures NoTwins(nodes + {n}, eqfn)
    {
      hide Linked, BucketNum, ByHash, GoodSizes;
    }

    /** A growth that fails is ignored: the element goes in all the same, beyond the load limit. */
    method Insert(elm: Node<K>, alloc: Alloc)
      requires Sound() && CanAdd(alloc)
      requires elm !in nodes && Lookup(nodes, eqfn, elm.key) == null
      modifies this, table, nodes`next, elm
      ensures Sound() && nodes == old(nodes) + {elm} && added == old(added) + 1
      ensures (table == old(table) || fresh(table)) && tableLength > 0
      ensures old(Valid() && (Grows() ==> alloc != NoMemory)) ==> Valid() && primeIdx == old(IdxWithRoom())
      ensures old(Valid() && Amortised()) ==> Amortised()
      ensures old(Compensated() && |nodes| + 1 < U32) ==> Compensated()
    {
      hide Linked, BucketNum, ByHash, GoodSizes, Paid, Covered, NoTwins, Lawful, Shape, LoadLimit;
      NoTwinsAdd(elm);
      Prepare(elm, alloc);
      LinkIn(elm);
    }

    /** The link edit of HT_REMOVE and HT_NEXT_RMV. */
    method LinkOut(p: SlotPtr<K>, r: Node<K>, ghost b: nat, ghost k: nat)
      requires Shape() && b < |chains| && k < |chains[b]| && p == SlotAt(chains, b, k) && r == chains[b][k]
      modifies table, nodes`next, this`nEntries, this`chains, this`nodes
      ensures Shape() && nodes == old(nodes) - {r} && chains == RemoveAt(old(chains), b, k)
      ensures r in old(nodes) && |old(nodes)| == |nodes| + 1 && r.next == old(r.next)
      ensures p == SlotAt(chains, b, k)
    {
      hide Linked, BucketNum, ByHash, LoadLimit;
      ghost var where := ByHash(nodes, tableLength);
      LinkedNext(table, chains, where, b, k);
      CountDown(nodes, r, nEntries);
      Unlink(table, p, r.next, chains, where, b, k);
      assert where == ByHash(nodes, tableLength);
      ByHashDrop(nodes, r, tableLength);
      Recount((nEntries - 1) % U32, RemoveAt(chains, b, k), nodes - {r});
    }

    /**
     The link edit of HT_FOREACH_FN: the callback has left `link` and `hash` in the element it rejects,
     or freed it, before the link that was read first is stored.
     */
    method LinkOutOverwritten(p: SlotPtr<K>, r: Node<K>, next: Node?<K>, link: Node?<K>, hash: unsigned,
                              ghost b: nat, ghost k: nat)
      requires Shape() && b < |chains| && k < |chains[b]| && p == SlotAt(chains, b, k) && r == chains[b][k]
      requires r in nodes && next == r.next
      modifies table, nodes`next, r`hash, this`nEntries, this`chains, this`nodes
      ensures Shape() && nodes == old(nodes) - {r} && chains == RemoveAt(old(chains), b, k)
      ensures p == SlotAt(chains, b, k)
    {
      hide Linked, BucketNum, ByHash, LoadLimit;
      ghost var where := ByHash(nodes, tableLength);
      LinkedNext(table, chains, where, b, k);
      UnlinkOverwritten(table, p, r, next, link, chains, where, b, k);
      assert where == ByHash(nodes, tableLength);
      ByHashDrop(nodes, r, tableLength);
      Forget(r, hash, RemoveAt(chains, b, k));
    }

    method Forget(r: Node<K>, hash: unsigned, ghost chains': seq<seq<Node<K>>>)
      requires Sized() && r in nodes && Linked(table, chains', ByHash(nodes - {r}, tableLength))
      requires nEntries == |nodes| % U32 && forall m | m in nodes :: m.hash == hashfn(m.key)
      modifies r`hash, this`nEntries, this`chains, this`nodes
      ensures Shape() && nodes == old(nodes) - {r} && chains == chains'
    {
      hide Linked, BucketNum, ByHash, LoadLimit, Shape;
      CountDown(nodes, r, nEntries);
      r.hash := hash;
      assert ByHash(nodes - {r}, tableLength) == old(ByHash(nodes - {r}, tableLength));
      Recount((nEntries - 1) % U32, chains', nodes - {r});
    }

    /** Losing elements keeps the invariant and the accounts. */
    lemma Fewer(nodes': set<Node<K>>)
      requires Sound() && nodes' <= nodes
      ensures NoTwins(nodes', eqfn) && |nodes'| <= |nodes|
      ensures Amortised() ==> Paid(sizes, primeIdx, |nodes'|, added, moved)
      ensures Compensated() ==> Covered(sizes, primeIdx, |nodes'|, added, moved)
    {
      hide Linked, BucketNum, ByHash, GoodSizes, Lawful;
      assert nodes == nodes' + (nodes - nodes');
    }

    /** What a smaller set of elements keeps. */
    ghost predicate Keeps(s: set<Node<K>>)
      reads this
    {
      && NoTwins(s, eqfn) && |s| <= |nodes|
      && (Amortised() ==> primeIdx < |sizes| && Paid(sizes, primeIdx, |s|, added, moved))
      && (Compensated() ==> primeIdx < |sizes| && Covered(sizes, primeIdx, |s|, added, moved))
    }

    lemma FewerAll()
      requires Sound()
      ensures forall s | s <= nodes :: Keeps(s)
    {
      hide Linked, BucketNum, ByHash, GoodSizes, Lawful, NoTwins, Shape, Paid, Covered;
      forall s | s <= nodes ensures Keeps(s) {
        Fewer(s);
      }
    }

    method Remove(elm: Node<K>) returns (r: Node?<K>)
      requires Sound()
      modifies this, table, nodes`next, elm`hash
      ensures Sound() && r == Lookup(old(nodes), eqfn, elm.key)
      ensures nodes == (if r == null then old(nodes) else old(nodes) - {r}) && table == old(table)
      ensures primeIdx == old(primeIdx) && tableLength == old(tableLength) && added == old(added) && moved == old(moved)
      ensures r != null ==> r.next == null
      ensures old(Valid()) ==> Valid()
      ensures (old(Amortised()) ==> Amortised()) && (old(Compensated()) ==> Compensated())
    {
      hide Linked, BucketNum, ByHash, GoodSizes, Lawful, Shape, Paid, Covered, NoTwins;
      SetHash(elm);
      var p;
      ghost var k;
      p, r, k := FindP(elm);
      if p == Null || r == null {
        return null;
      }
      Fewer(nodes - {r});
      LinkOut(p, r, BucketNum(elm.hash, tableLength), k);
      r.next := null;
    }

    lemma NoTwinsSwap(n: Node<K>, r: Node<K>)
      requires Sound() && r in nodes && eqfn(r.key, n.key)
      ensures NoTwins(nodes - {r} + {n}, eqfn)
    {
      hide Linked, BucketNum, ByHash, GoodSizes;
      assert forall m | m in nodes - {r} :: eqfn(m.key, n.key) ==> eqfn(n.key, r.key) && eqfn(m.key, r.key);
    }

    /** The link edits of HT_REPLACE when there is an equal element. */
    method LinkOver(p: SlotPtr<K>, r: Node<K>, elm: Node<K>, ghost b: nat, ghost k: nat)
      requires Shape() && b < |chains| && k < |chains[b]| && p == SlotAt(chains, b, k) && r == chains[b][k]
      requires elm !in nodes && elm.hash == hashfn(elm.key) && BucketNum(elm.hash, tableLength) == b
      modifies table, nodes`next, elm`next, this`nEntries, this`chains, this`nodes
      ensures Shape() && nodes == old(nodes) - {r} + {elm} && |nodes| == |old(nodes)| && r in old(nodes)
      ensures r.next == null
    {
      hide Linked, BucketNum, ByHash, LoadLimit;
      ghost var where := ByHash(nodes, tableLength);
      LinkedNext(table, chains, where, b, k);
      Displace(table, p, r, elm, chains, where, b, k);
      assert where == ByHash(nodes, tableLength);
      ByHashDrop(nodes, r, tableLength);
      ByHashAdd(nodes - {r}, elm, tableLength);
      Recount(nEntries, chains[b := chains[b][k := elm]], nodes - {r} + {elm});
    }

    /** The link edit of HT_REPLACE when there is none: `elm` goes to the end of its bucket. */
    method LinkLast(p: SlotPtr<K>, elm: Node<K>, ghost b: nat)
      requires Shape() && b < |chains| && p == SlotAt(chains, b, |chains[b]|)
      requires elm !in nodes && elm.hash == hashfn(elm.key) && BucketNum(elm.hash, tableLength) == b
      requires elm.next == null
      modifies table, nodes`next, this`nEntries, this`chains, this`nodes
      ensures Shape() && nodes == old(nodes) + {elm} && |nodes| == |old(nodes)| + 1
    {
      hide Linked, BucketNum, ByHash, LoadLimit;
      ghost var where := ByHash(nodes, tableLength);
      Append(table, p, elm, chains, where, b);
      assert where == ByHash(nodes, tableLength);
      ByHashAdd(nodes, elm, tableLength);
      CountUp(|nodes|, nEntries);
      Recount((nEntries + 1) % U32, chains[b := chains[b] + [elm]], nodes + {elm});
    }

    /** The end of HT_REPLACE: `elm` takes the place of an equal element, or goes to the end of its bucket. */
    method PutInPlace(elm: Node<K>) returns (r: Node?<K>)
      requires Sound() && tableLength > 0 && elm !in nodes && elm.hash == hashfn(elm.key)
      requires Lookup(nodes, eqfn, elm.key) == null ==> elm.next == null
      modifies table, nodes`next, elm`next, this`nEntries, this`chains, this`nodes
      ensures Sound() && r == Lookup(old(nodes), eqfn, elm.key)
      ensures nodes == (if r == null then old(nodes) else old(nodes) - {r}) + {elm}
      ensures |nodes| == |old(nodes)| + (if r == null then 1 else 0)
      ensures r != null ==> r.next == null
    {
      hide Linked, BucketNum, ByHash, GoodSizes, NoTwins, Lawful, Shape;
      var p;
      ghost var k;
      p, r, k := FindP(elm);
      if r != null {
        NoTwinsSwap(elm, r);
        LinkOver(p, r, elm, BucketNum(elm.hash, tableLength), k);
      } else {
        NoTwinsAdd(elm);
        LinkLast(p, elm, BucketNum(elm.hash, tableLength));
      }
    }

    /** The accounts do not mind if the element added displaces another. */
    lemma OneLess()
      ensures PaidForOneMore() ==> Paid(sizes, primeIdx, |nodes|, added, moved)
      ensures CoveredForOneMore() ==> Covered(sizes, primeIdx, |nodes|, added, moved)
    {
    }

    method Replace(elm: Node<K>, alloc: Alloc) returns (r: Node?<K>)
      requires Sound() && CanAdd(alloc)
      requires elm !in nodes && (Lookup(nodes, eqfn, elm.key) == null ==> elm.next == null)
      modifies this, table, nodes`next, elm
      ensures Sound() && r == Lookup(old(nodes), eqfn, elm.key)
      ensures nodes == (if r == null then old(nodes) else old(nodes) - {r}) + {elm} && added == old(added) + 1
      ensures r != null ==> r.next == null
      ensures (table == old(table) || fresh(table)) && tableLength > 0
      ensures old(Valid() && (Grows() ==> alloc != NoMemory)) ==> Valid() && primeIdx == old(IdxWithRoom())
      ensures old(Valid() && Amortised()) ==> Amortised()
      ensures old(Compensated() && |nodes| + 1 < U32) ==> Compensated()
    {
      hide Linked, BucketNum, ByHash, GoodSizes, Paid, Covered, NoTwins, Lawful, Shape, Lookup, LoadLimit;
      Prepare(elm, alloc);
      OneLess();
      r := PutInPlace(elm);
    }

    /** HT_INIT on a head whose table is gone. */
    method Init()
      modifies this
      ensures fresh(table) && table.Length == 0
      ensures tableLength == nEntries == loadLimit == 0 && primeIdx == -1
      ensures nodes == {} && chains == [] && added == moved == 0
    {
      table := new Node?<K>[0];
      tableLength, nEntries, loadLimit, primeIdx := 0, 0, 0, -1;
      nodes, chains, added, moved := {}, [], 0, 0;
    }

    method Clear()
      requires Sound()
      modifies this
      ensures Valid() && nodes == {} && fresh(table) && tableLength == 0
      ensures Amortised() && Compensated() && added == moved == 0
    {
      hide Linked, BucketNum, ByHash, Lawful, Paid, Covered, GoodSizes;
      Init();
      LinkedEmpty(table);
      PaidStart(sizes);
      CoveredStart(sizes);
    }
  }
}
