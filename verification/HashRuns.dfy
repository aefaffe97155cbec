/** Runs of ht.h operations, against a finite map from keys (up to equality) to elements. */
module HashRuns {
  import opened Growth
  import opened Links
  import opened HashTable

  datatype Op<K> =
    | FindOp(elm: Node<K>)
    | InsertOp(elm: Node<K>)
    | ReplaceOp(elm: Node<K>)
    | RemoveOp(elm: Node<K>)
    | ClearOp

  ghost function Touched<K>(op: Op<K>): set<Node<K>> {
    if op.ClearOp? then {} else {op.elm}
  }

  /** The stored elements after `op`. */
  ghost function Next<K>(stored: set<Node<K>>, eq: (K, K) -> bool, op: Op<K>): set<Node<K>> {
    match op
    case FindOp(_) => stored
    case InsertOp(elm) => stored + {elm}
    case ReplaceOp(elm) => stored - {Lookup(stored, eq, elm.key)} + {elm}
    case RemoveOp(elm) => stored - {Lookup(stored, eq, elm.key)}
    case ClearOp => {}
  }

  /** What `op` returns. */
  ghost function Answer<K>(stored: set<Node<K>>, eq: (K, K) -> bool, op: Op<K>): Node?<K> {
    match op
    case FindOp(elm) => Lookup(stored, eq, elm.key)
    case InsertOp(_) => null
    case ReplaceOp(elm) => Lookup(stored, eq, elm.key)
    case RemoveOp(elm) => Lookup(stored, eq, elm.key)
    case ClearOp => null
  }

  /** Elements added since HT_INIT or the last HT_CLEAR. */
  ghost function NextAdded<K>(added: nat, op: Op<K>): nat {
    match op
    case InsertOp(_) => added + 1
    case ReplaceOp(_) => added + 1
    case ClearOp => 0
    case _ => added
  }

  /** Whether there is a table at all. */
  ghost predicate NextBuilt<K>(built: bool, op: Op<K>) {
    match op
    case InsertOp(_) => true
    case ReplaceOp(_) => true
    case ClearOp => false
    case _ => built
  }

  /** Elements a later HT_REPLACE must not be given: HT_CLEAR leaves their links as they were. */
  ghost function NextStale<K>(stored: set<Node<K>>, stale: set<Node<K>>, op: Op<K>): set<Node<K>> {
    match op
    case InsertOp(elm) => stale - {elm}
    case ReplaceOp(elm) => stale - {elm}
    case ClearOp => stale + stored
    case _ => stale
  }

  /** What ht.h asks of its callers: a node with a stale link may only displace another. */
  ghost predicate Legal<K>(stored: set<Node<K>>, stale: set<Node<K>>, eq: (K, K) -> bool, op: Op<K>) {
    match op
    case InsertOp(elm) => elm !in stored && Lookup(stored, eq, elm.key) == null
    case ReplaceOp(elm) => elm !in stored && (elm in stale ==> Lookup(stored, eq, elm.key) != null)
    case _ => true
  }

  /** Elements that are neither stored nor stale have a null link. */
  ghost predicate Unlinked<K>(all: set<Node<K>>, stored: set<Node<K>>, stale: set<Node<K>>)
    reads all
  {
    forall n | n in all && n !in stored && n !in stale :: n.next == null
  }

  predicate Adds<K>(op: Op<K>) {
    op.InsertOp? || op.ReplaceOp?
  }

  /** One operation; `alloc` is how the allocations of a growth end, should there be one. */
  method Step<K(!new)>(ht: Table<K>, op: Op<K>, alloc: Alloc, ghost stale: set<Node<K>>, ghost all: set<Node<K>>)
    returns (r: Node?<K>)
    requires ht.Sound() && (Adds(op) ==> ht.CanAdd(alloc))
    requires ht.nodes <= all && Touched(op) <= all && Unlinked(all, ht.nodes, stale)
    requires Legal(ht.nodes, stale, ht.eqfn, op)
    modifies ht, ht.table, all
    ensures ht.Sound() && (ht.table == old(ht.table) || fresh(ht.table))
    ensures r == Answer(old(ht.nodes), ht.eqfn, op) && ht.nodes == Next(old(ht.nodes), ht.eqfn, op)
    ensures Unlinked(all, ht.nodes, NextStale(old(ht.nodes), stale, op))
    ensures ht.added == NextAdded(old(ht.added), op)
    ensures ht.tableLength > 0 <==> NextBuilt(old(ht.tableLength > 0), op)
    ensures old(ht.Valid() && (ht.Grows() ==> alloc != NoMemory)) ==> ht.Valid()
    ensures old(ht.Valid() && ht.Amortised()) ==> ht.Amortised()
    ensures old(ht.Compensated() && |ht.nodes| + 1 < U32) ==> ht.Compensated()
  {
    hide Linked, BucketNum, ByHash, ht.Sound, ht.Valid, ht.Amortised, ht.Compensated, ht.CanAdd, ht.Grows, Lookup;
    match op
    case FindOp(elm) => r := ht.Find(elm);
    case InsertOp(elm) => ht.Insert(elm, alloc); r := null;
    case ReplaceOp(elm) => r := ht.Replace(elm, alloc);
    case RemoveOp(elm) => r := ht.Remove(elm);
    case ClearOp => ht.Clear(); SoundIfValid(ht); r := null;
  }

  // ---- whole runs ----

  ghost predicate LegalRun<K>(stored: set<Node<K>>, stale: set<Node<K>>, eq: (K, K) -> bool, ops: seq<Op<K>>)
    decreases |ops|
  {
    ops == [] ||
    (Legal(stored, stale, eq, ops[0]) &&
     LegalRun(Next(stored, eq, ops[0]), NextStale(stored, stale, ops[0]), eq, ops[1..]))
  }

  ghost function Answers<K>(stored: set<Node<K>>, eq: (K, K) -> bool, ops: seq<Op<K>>): seq<Node?<K>>
    decreases |ops|
  {
    if ops == [] then []
    else [Answer(stored, eq, ops[0])] + Answers(Next(stored, eq, ops[0]), eq, ops[1..])
  }

  ghost function Final<K>(stored: set<Node<K>>, eq: (K, K) -> bool, ops: seq<Op<K>>): set<Node<K>>
    decreases |ops|
  {
    if ops == [] then stored else Final(Next(stored, eq, ops[0]), eq, ops[1..])
  }

  ghost function FinalAdded<K>(added: nat, ops: seq<Op<K>>): nat
    decreases |ops|
  {
    if ops == [] then added else FinalAdded(NextAdded(added, ops[0]), ops[1..])
  }

  /** Only the first growth of a table has to get memory: without it there is no bucket to use. */
  ghost predicate FirstSucceeds<K>(built: bool, ops: seq<Op<K>>, allocs: seq<Alloc>)
    requires |allocs| == |ops|
    decreases |ops|
  {
    ops == [] ||
    ((Adds(ops[0]) && !built ==> allocs[0] != NoMemory) &&
     FirstSucceeds(NextBuilt(built, ops[0]), ops[1..], allocs[1..]))
  }

  /**
   Any legal run of operations, whichever growths fail, returns what the set of stored elements says
   and leaves a sound table. At most four elements are moved for each one added; when no growth fails
   the table stays within its load limit, and at most three are.
   */
  method Run<K(!new)>(ht: Table<K>, ops: seq<Op<K>>, allocs: seq<Alloc>, ghost stale: set<Node<K>>,
                       ghost all: set<Node<K>>)
    returns (out: seq<Node?<K>>)
    requires ht.Sound() && |allocs| == |ops| && FirstSucceeds(ht.tableLength > 0, ops, allocs)
    requires (ht.Valid() && NoMemory !in allocs) || |all| + 1 < LoadLimit(ht.sizes[|ht.sizes| - 1])
    requires ht.nodes <= all && Unlinked(all, ht.nodes, stale) && forall op | op in ops :: Touched(op) <= all
    requires LegalRun(ht.nodes, stale, ht.eqfn, ops)
    modifies ht, ht.table, all
    ensures ht.Sound() && (ht.table == old(ht.table) || fresh(ht.table))
    ensures out == Answers(old(ht.nodes), ht.eqfn, ops) && ht.nodes == Final(old(ht.nodes), ht.eqfn, ops)
    ensures ht.added == FinalAdded(old(ht.added), ops) <= old(ht.added) + |ops|
    ensures old(ht.Valid()) && NoMemory !in allocs ==> ht.Valid() && (old(ht.Amortised()) ==> ht.moved <= 3 * ht.added)
    ensures old(ht.Compensated()) && |all| + 1 < U32 ==> ht.moved <= 4 * ht.added
    decreases |ops|
  {
    hide ht.Sound, ht.Valid, ht.Amortised, ht.Compensated, ht.CanAdd, ht.Grows, Linked, BucketNum, ByHash, LoadLimit,
         Next, NextStale, NextAdded, NextBuilt, Answer, Legal, Unlinked, Adds;
    if ops == [] {
      Bounds(ht);
      return [];
    }
    NextWithin(ht.nodes, ht.eqfn, ops[0], all);
    FewerThan(ht.nodes, all);
    if Adds(ops[0]) {
      RoomInRange(ht, allocs[0], all);
    }
    ghost var stored := ht.nodes;
    AddedAtMost(ht.added, ops);
    var r := Step(ht, ops[0], allocs[0], stale, all);
    var rest := Run(ht, ops[1..], allocs[1..], NextStale(stored, stale, ops[0]), all);
    out := [r] + rest;
  }

  lemma {:induction false} AddedAtMost<K>(added: nat, ops: seq<Op<K>>)
    ensures FinalAdded(added, ops) <= added + |ops|
    decreases |ops|
  {
    if ops != [] {
      AddedAtMost(NextAdded(added, ops[0]), ops[1..]);
    }
  }

  lemma SoundIfValid<K(!new)>(ht: Table<K>)
    ensures ht.Valid() ==> ht.Sound()
    ensures ht.Valid() <==> ht.Sound() && (ht.primeIdx < |ht.sizes| - 1 ==> |ht.nodes| <= ht.loadLimit)
  {
  }

  lemma Bounds<K(!new)>(ht: Table<K>)
    requires ht.Sound()
    ensures ht.Amortised() ==> ht.moved <= 3 * ht.added
    ensures ht.Compensated() ==> ht.moved <= 4 * ht.added
  {
    hide ht.Lawful, ht.Shape, ht.Amortised, ht.Compensated, NoTwins;
    ht.MovedBound();
  }

  /** With fewer elements about than the last load limit no growth is asked to go beyond the sizes. */
  lemma RoomInRange<K(!new)>(ht: Table<K>, alloc: Alloc, all: set<Node<K>>)
    requires ht.Sound() && ht.nodes <= all && (ht.tableLength == 0 ==> alloc != NoMemory)
    requires ht.Valid() || |all| + 1 < LoadLimit(ht.sizes[|ht.sizes| - 1])
    ensures ht.CanAdd(alloc)
  {
    hide Linked, BucketNum, ByHash, NoTwins;
    ht.SizesAre();
    FewerThan(ht.nodes, all);
    if ht.Valid() {
      ht.ValidCanAdd(alloc);
    }
  }

  lemma FewerThan<N>(some: set<N>, all: set<N>)
    requires some <= all
    ensures |some| <= |all|
  {
    assert all == some + (all - some);
  }

  lemma NextWithin<K>(stored: set<Node<K>>, eq: (K, K) -> bool, op: Op<K>, all: set<Node<K>>)
    requires stored <= all && Touched(op) <= all
    ensures Next(stored, eq, op) <= all
  {
  }

  /**
   The stored elements behave as a finite map from keys, up to equality, to elements: HT_INSERT and
   HT_REPLACE bind the class of their key, HT_REMOVE unbinds it, and every other class keeps its binding.
   */
  lemma LookupNext<K(!new)>(ht: Table<K>, op: Op<K>, stale: set<Node<K>>, k: K)
    requires ht.Sound() && Legal(ht.nodes, stale, ht.eqfn, op)
    ensures var m := Lookup(ht.nodes, ht.eqfn, k);
            var m' := Lookup(Next(ht.nodes, ht.eqfn, op), ht.eqfn, k);
            m' == match op
                  case FindOp(_) => m
                  case InsertOp(elm) => if ht.eqfn(elm.key, k) then elm else m
                  case ReplaceOp(elm) => if ht.eqfn(elm.key, k) then elm else m
                  case RemoveOp(elm) => if ht.eqfn(elm.key, k) then null else m
                  case ClearOp => null
  {
    hide ht.Shape;
  }
}
