/**
 The abstract shape of a chained hash table: one sequence of nodes per bucket, together with
 a map that says in which bucket each stored node sits. Everything here is about values; the
 heap enters in `Links`.
 */
module Chains {

  /** Every node of `chains` sits in the one bucket that `where` names, exactly once. */
  ghost predicate Placed<N>(chains: seq<seq<N>>, where: map<N, nat>) {
    && (forall b, i {:trigger chains[b][i]} | 0 <= b < |chains| && 0 <= i < |chains[b]| ::
          chains[b][i] in where && where[chains[b][i]] == b)
    && (forall n | n in where :: where[n] < |chains| && n in chains[where[n]])
    && (forall b, i, j {:trigger chains[b][i], chains[b][j]} |
          0 <= b < |chains| && 0 <= i < j < |chains[b]| :: chains[b][i] != chains[b][j])
  }

  function PushFront<N>(chains: seq<seq<N>>, b: nat, n: N): seq<seq<N>>
    requires b < |chains|
  {
    chains[b := [n] + chains[b]]
  }

  function Cut<N>(c: seq<N>, k: nat): (r: seq<N>)
    requires k < |c|
    ensures |r| == |c| - 1 && forall j | 0 <= j < |r| :: r[j] == c[if j < k then j else j + 1]
  {
    c[..k] + c[k + 1..]
  }

  function RemoveAt<N>(chains: seq<seq<N>>, b: nat, k: nat): seq<seq<N>>
    requires b < |chains| && k < |chains[b]|
  {
    chains[b := Cut(chains[b], k)]
  }

  lemma PushFrontPlaced<N>(chains: seq<seq<N>>, where: map<N, nat>, b: nat, n: N)
    requires Placed(chains, where) && b < |chains| && n !in where
    ensures Placed(PushFront(chains, b, n), where[n := b])
  {
    var c', w' := PushFront(chains, b, n), where[n := b];
    forall m | m in w' ensures w'[m] < |c'| && m in c'[w'[m]] {
      if m == n {
        assert c'[b][0] == n;
      } else {
        var i :| 0 <= i < |chains[w'[m]]| && chains[w'[m]][i] == m;
        assert w'[m] == b ==> c'[b][i + 1] == m;
      }
    }
  }

  lemma RemoveAtPlaced<N>(chains: seq<seq<N>>, where: map<N, nat>, b: nat, k: nat)
    requires Placed(chains, where) && b < |chains| && k < |chains[b]|
    ensures Placed(RemoveAt(chains, b, k), where - {chains[b][k]})
  {
    var n := chains[b][k];
    var c', w' := RemoveAt(chains, b, k), where - {n};
    forall m | m in w' ensures w'[m] < |c'| && m in c'[w'[m]] {
      var i :| 0 <= i < |chains[w'[m]]| && chains[w'[m]][i] == m;
      assert w'[m] == b ==> i != k && (if i < k then c'[b][i] else c'[b][i - 1]) == m;
    }
  }

  lemma ReplaceAtPlaced<N>(chains: seq<seq<N>>, where: map<N, nat>, b: nat, k: nat, n: N)
    requires Placed(chains, where) && b < |chains| && k < |chains[b]| && n !in where
    ensures Placed(chains[b := chains[b][k := n]], (where - {chains[b][k]})[n := b])
  {
    var r := chains[b][k];
    var c', w' := chains[b := chains[b][k := n]], (where - {r})[n := b];
    forall m | m in w' ensures w'[m] < |c'| && m in c'[w'[m]] {
      if m == n {
        assert c'[b][k] == n;
      } else {
        var i :| 0 <= i < |chains[w'[m]]| && chains[w'[m]][i] == m;
        assert c'[w'[m]][i] == m;
      }
    }
  }

  lemma AppendPlaced<N>(chains: seq<seq<N>>, where: map<N, nat>, b: nat, n: N)
    requires Placed(chains, where) && b < |chains| && n !in where
    ensures Placed(chains[b := chains[b] + [n]], where[n := b])
  {
    var c', w' := chains[b := chains[b] + [n]], where[n := b];
    forall m | m in w' ensures w'[m] < |c'| && m in c'[w'[m]] {
      if m == n {
        assert c'[b][|chains[b]|] == n;
      } else {
        var i :| 0 <= i < |chains[w'[m]]| && chains[w'[m]][i] == m;
        assert c'[w'[m]][i] == m;
      }
    }
  }

  /** The nodes of bucket `b` and of the buckets after it, in the order an iteration visits them. */
  ghost function Rest<N>(chains: seq<seq<N>>, b: nat): (s: seq<N>)
    decreases |chains| - b
  {
    if b >= |chains| then [] else chains[b] + Rest(chains, b + 1)
  }

  ghost function Elements<N>(c: seq<N>): set<N> {
    set n | n in c
  }

  ghost predicate NoRepeats<N>(c: seq<N>) {
    forall i, j | 0 <= i < j < |c| :: c[i] != c[j]
  }

  lemma RestSets<N>(c: seq<N>)
    requires c != [] && NoRepeats(c)
    ensures Elements(c) == Elements(c[1..]) + {c[0]} && c[0] !in Elements(c[1..]) && NoRepeats(c[1..])
  {
    assert c == [c[0]] + c[1..];
  }

  ghost function Below<N>(where: map<N, nat>, b: nat): set<N> {
    set n | n in where && where[n] < b
  }

  lemma BelowNext<N>(chains: seq<seq<N>>, where: map<N, nat>, b: nat)
    requires Placed(chains, where) && b < |chains|
    ensures Below(where, b + 1) == Below(where, b) + Elements(chains[b])
    ensures Elements(chains[b]) !! Below(where, b)
    ensures NoRepeats(chains[b])
  {
  }

  lemma {:induction false} RestIn<N>(chains: seq<seq<N>>, where: map<N, nat>, b: nat, n: N)
    requires Placed(chains, where)
    ensures n in Rest(chains, b) <==> n in where && where[n] >= b
    decreases |chains| - b
  {
    if b < |chains| {
      RestIn(chains, where, b + 1, n);
    }
  }

  lemma {:induction false} RestNoRepeats<N>(chains: seq<seq<N>>, where: map<N, nat>, b: nat)
    requires Placed(chains, where)
    ensures NoRepeats(Rest(chains, b))
    decreases |chains| - b
  {
    if b < |chains| {
      RestNoRepeats(chains, where, b + 1);
      var c, r := chains[b], Rest(chains, b + 1);
      forall n | n in r ensures n !in c {
        RestIn(chains, where, b + 1, n);
      }
    }
  }

  lemma {:induction false} RestAscends<N>(chains: seq<seq<N>>, where: map<N, nat>, b: nat, i: nat, j: nat)
    requires Placed(chains, where) && i < j < |Rest(chains, b)|
    ensures var r := Rest(chains, b); r[i] in where && r[j] in where && where[r[i]] <= where[r[j]]
    decreases |chains| - b
  {
    var r, k := Rest(chains, b), |chains[b]|;
    RestIn(chains, where, b, r[i]);
    RestIn(chains, where, b, r[j]);
    assert r == chains[b] + Rest(chains, b + 1);
    if i < k {
      assert r[i] == chains[b][i] && r[j] in r;
    } else {
      RestAscends(chains, where, b + 1, i - k, j - k);
    }
  }

  lemma {:induction false} CountElements<N>(c: seq<N>)
    requires NoRepeats(c)
    ensures |Elements(c)| == |c|
  {
    if c != [] {
      RestSets(c);
      CountElements(c[1..]);
    }
  }

  /** The chains hold each stored node once. */
  lemma CountNodes<N>(chains: seq<seq<N>>, where: map<N, nat>)
    requires Placed(chains, where)
    ensures |Rest(chains, 0)| == |where| && Elements(Rest(chains, 0)) == where.Keys
  {
    forall n ensures n in Rest(chains, 0) <==> n in where {
      RestIn(chains, where, 0, n);
    }
    RestNoRepeats(chains, where, 0);
    CountElements(Rest(chains, 0));
    assert Elements(Rest(chains, 0)) == where.Keys;
  }

  /** Removing a node of bucket `d` or an earlier one leaves what comes after bucket `d` alone. */
  lemma {:induction false} RestAfterRemove<N>(chains: seq<seq<N>>, d: nat, k: nat, b: nat)
    requires d < |chains| && k < |chains[d]| && d < b
    ensures Rest(RemoveAt(chains, d, k), b) == Rest(chains, b)
    decreases |chains| - b
  {
    if b < |chains| {
      RestAfterRemove(chains, d, k, b + 1);
    }
  }
}
