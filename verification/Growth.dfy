/** The prime-size growth policy of ht.h: which lengths a table takes, and what growing costs. */
module Growth {

  const PRIMES: seq<nat> := [
    53, 97, 193, 389, 769, 1543, 3079, 6151, 12289, 24593, 49157, 98317, 196613, 393241, 786433, 1572869,
    3145739, 6291469, 12582917, 25165843, 50331653, 100663319, 201326611, 402653189]

  /** `(unsigned)(0.6 * len)`: exact, since no listed prime is a multiple of 5. */
  function LoadLimit(len: nat): nat {
    3 * len / 5
  }

  /** Three fifths of the length, rounded down; the last size that is listed allows 241591913 elements. */
  lemma LoadLimitIs(len: nat)
    ensures 5 * LoadLimit(len) <= 3 * len < 5 * LoadLimit(len) + 5
    ensures LoadLimit(PRIMES[|PRIMES| - 1]) == 241591913
  {
    assert PRIMES[23] == 402653189;
  }

  /** Nodes moved on the way from an empty table to size `i` when each growth happens at its limit. */
  function Work(sizes: seq<nat>, i: int): nat
    requires i < |sizes|
  {
    if i <= 0 then 0 else Work(sizes, i - 1) + LoadLimit(sizes[i - 1])
  }

  /**
   What the table needs of its list of lengths: each fits an `unsigned`, a growth by one step makes
   room for the element that caused it, and moving is paid for by the elements that filled the
   previous table.
   */
  ghost predicate GoodSizes(sizes: seq<nat>) {
    && |sizes| > 0 && 1 < LoadLimit(sizes[0])
    && (forall i | 0 <= i < |sizes| :: 0 < sizes[i] < 0x1_0000_0000)
    && (forall i, j | 0 <= i < j < |sizes| :: sizes[i] < sizes[j] && LoadLimit(sizes[i]) + 1 < LoadLimit(sizes[j]))
    && (forall i | 1 <= i < |sizes| ::
          Work(sizes, i) <= 2 * LoadLimit(sizes[i - 1]) + 58 && Work(sizes, i) <= 3 * LoadLimit(sizes[i - 1]))
  }

  lemma {:induction false} PrimesRise(i: nat, j: nat)
    requires i < j < |PRIMES|
    ensures PRIMES[i] < PRIMES[j] && LoadLimit(PRIMES[i]) + 1 < LoadLimit(PRIMES[j])
  {
    forall m: nat | m + 1 < |PRIMES|
      ensures PRIMES[m] < PRIMES[m + 1] && LoadLimit(PRIMES[m]) + 1 < LoadLimit(PRIMES[m + 1])
    {
      if m < 8 {} else if m < 16 {} else {}
    }
    if i + 1 < j {
      PrimesRise(i, j - 1);
    }
  }

  const WORK: seq<nat> := [
    0, 31, 89, 204, 437, 898, 1823, 3670, 7360, 14733, 29488, 58982, 117972, 235939, 471883, 943742,
    1887463, 3774906, 7549787, 15099537, 30199042, 60398033, 120796024, 241591990]

  lemma {:induction false} WorkValue(i: nat)
    requires i < |PRIMES|
    ensures Work(PRIMES, i) == WORK[i]
  {
    if i > 0 {
      WorkValue(i - 1);
      forall j: nat | 0 < j < |PRIMES| ensures WORK[j] == WORK[j - 1] + LoadLimit(PRIMES[j - 1]) {
        if j < 8 {} else if j < 16 {} else {}
      }
    }
  }

  lemma WorkBound(i: nat)
    requires 1 <= i < |PRIMES|
    ensures WORK[i] <= 2 * LoadLimit(PRIMES[i - 1]) + 58 && WORK[i] <= 3 * LoadLimit(PRIMES[i - 1])
  {
    if i < 8 {} else if i < 16 {} else {}
  }

  lemma PrimesFit(i: nat)
    requires i < |PRIMES|
    ensures 0 < PRIMES[i] < 0x1_0000_0000
  {
    if i < 8 {} else if i < 16 {} else {}
  }

  lemma PrimesAreGood()
    ensures GoodSizes(PRIMES)
  {
    forall i | 0 <= i < |PRIMES| ensures 0 < PRIMES[i] < 0x1_0000_0000 {
      PrimesFit(i);
    }
    forall i, j | 0 <= i < j < |PRIMES|
      ensures PRIMES[i] < PRIMES[j] && LoadLimit(PRIMES[i]) + 1 < LoadLimit(PRIMES[j])
    {
      PrimesRise(i, j);
    }
    forall i | 1 <= i < |PRIMES|
      ensures Work(PRIMES, i) <= 2 * LoadLimit(PRIMES[i - 1]) + 58 && Work(PRIMES, i) <= 3 * LoadLimit(PRIMES[i - 1])
    {
      WorkValue(i);
      WorkBound(i);
    }
  }

  /** The search loop of HT_GROW, entered at index `i`, looks at index `j`: no limit between exceeds `size`. */
  ghost predicate LooksAt(sizes: seq<nat>, i: int, size: nat, j: int) {
    -1 <= i < j <= |sizes| && forall m | i < m < j :: LoadLimit(sizes[m]) <= size
  }

  /** A growth from size index `i`, asked for room for `size` elements, ended at index `j`. */
  ghost predicate Grown(sizes: seq<nat>, i: int, size: nat, j: int) {
    && -1 <= i < j < |sizes| && LooksAt(sizes, i, size, j)
    && (i >= 0 ==> LoadLimit(sizes[i]) <= size) && size < LoadLimit(sizes[j])
  }

  /** Growing for one element more than a full table holds goes exactly one size up. */
  lemma OneStep(sizes: seq<nat>, i: int, n: nat, size: nat)
    requires GoodSizes(sizes) && -1 <= i < |sizes| - 1
    requires n <= (if i < 0 then 0 else LoadLimit(sizes[i])) && size == n + 1
    ensures size < LoadLimit(sizes[i + 1]) <= LoadLimit(sizes[|sizes| - 1]) < 0x1_0000_0000
    ensures forall j | LooksAt(sizes, i, size, j) :: j == i + 1
  {
  }

  // ---- what growing costs ----

  /**
   With `n` elements stored at size index `i`, every growth so far happened at a load limit and
   moved no more than what was stored, and the elements added since HT_INIT cover the moves.
   */
  ghost predicate Paid(sizes: seq<nat>, i: int, n: nat, added: nat, moved: nat)
    requires i < |sizes|
  {
    moved <= Work(sizes, i) && n <= added && (i >= 1 ==> LoadLimit(sizes[i - 1]) < added)
  }

  lemma PaidStart(sizes: seq<nat>)
    ensures Paid(sizes, -1, 0, 0, 0)
  {
  }

  /** An insertion keeps the account, whether or not it first grows the table and moves `m` elements. */
  lemma PaidAdd(sizes: seq<nat>, i: int, n: nat, added: nat, moved: nat, m: nat)
    requires i < |sizes| && Paid(sizes, i, n, added, moved) && m <= n
    ensures Paid(sizes, i, n + 1, added + 1, moved)
    ensures -1 <= i < |sizes| - 1 && n == (if i < 0 then 0 else LoadLimit(sizes[i])) ==>
              Paid(sizes, i + 1, n + 1, added + 1, moved + m)
  {
  }

  /** What the account says: moving costs a constant number of moves per element ever added. */
  lemma PaidBound(sizes: seq<nat>, i: int, n: nat, added: nat, moved: nat)
    requires GoodSizes(sizes) && i < |sizes| && Paid(sizes, i, n, added, moved)
    ensures moved <= 2 * added + 56 && moved <= 3 * added
  {
  }

  /**
   The account that also survives growths that failed and were made up for later, beyond the load
   limit: the last growth may have moved anything below the limit it reached.
   */
  ghost predicate Covered(sizes: seq<nat>, i: int, n: nat, added: nat, moved: nat)
    requires i < |sizes|
  {
    && n <= added && moved <= Work(sizes, i) + added
    && (if i < 0 then moved == 0 else moved <= Work(sizes, i) + LoadLimit(sizes[i]))
    && (i >= 1 ==> LoadLimit(sizes[i - 1]) <= added)
  }

  lemma CoveredStart(sizes: seq<nat>)
    ensures Covered(sizes, -1, 0, 0, 0)
  {
  }

  lemma CoveredAdd(sizes: seq<nat>, i: int, n: nat, added: nat, moved: nat)
    requires i < |sizes| && Covered(sizes, i, n, added, moved)
    ensures Covered(sizes, i, n + 1, added + 1, moved)
  {
  }

  lemma {:induction false} WorkRises(sizes: seq<nat>, i: int, j: int)
    requires i <= j < |sizes|
    ensures Work(sizes, i) <= Work(sizes, j)
    decreases j - i
  {
    if i < j {
      WorkRises(sizes, i, j - 1);
    }
  }

  /** A growth from size index `i` to `j`, however far beyond the load limit it comes. */
  lemma CoveredGrow(sizes: seq<nat>, i: int, j: nat, n: nat, added: nat, moved: nat, m: nat)
    requires Grown(sizes, i, n + 1, j) && Covered(sizes, i, n, added, moved) && m <= n
    ensures Covered(sizes, j, n + 1, added + 1, moved + m)
  {
    WorkRises(sizes, i + 1, j);
  }

  /** Adding an element, after a growth or without one, keeps either account. */
  lemma AddAccounts(sizes: seq<nat>, i: int, j: int, n: nat, added: nat, moved: nat, moved': nat)
    requires i <= j < |sizes|
    requires if j == i then moved' == moved else Grown(sizes, i, n + 1, j) && moved <= moved' <= moved + n
    ensures Covered(sizes, i, n, added, moved) ==> Covered(sizes, j, n + 1, added + 1, moved')
    ensures Paid(sizes, i, n, added, moved) &&
            (j == i || (j == i + 1 && n == (if i < 0 then 0 else LoadLimit(sizes[i])))) ==>
              Paid(sizes, j, n + 1, added + 1, moved')
  {
    hide LoadLimit, Paid, Covered;
    if Paid(sizes, i, n, added, moved) {
      PaidAdd(sizes, i, n, added, moved, if j == i then 0 else moved' - moved);
    }
    if Covered(sizes, i, n, added, moved) {
      if j == i {
        CoveredAdd(sizes, i, n, added, moved);
      } else {
        CoveredGrow(sizes, i, j, n, added, moved, moved' - moved);
      }
    }
  }

  lemma CoveredBound(sizes: seq<nat>, i: int, n: nat, added: nat, moved: nat)
    requires GoodSizes(sizes) && i < |sizes| && Covered(sizes, i, n, added, moved)
    ensures moved <= 3 * added + 58 && moved <= 4 * added
  {
  }

  // ---- past the end ----

  /**
   The guard of that loop lets the index reach the end of the list. It does so, reading one length
   past the end, exactly when the size asked for is not below the last load limit.
   */
  lemma LooksPastTheEndExactly(sizes: seq<nat>, i: int, size: nat)
    requires GoodSizes(sizes) && -1 <= i < |sizes| - 1
    ensures LooksAt(sizes, i, size, |sizes|) <==> LoadLimit(sizes[|sizes| - 1]) <= size
  {
  }

  /** An input that does: growing an empty head for as many elements as the last load limit. */
  lemma LooksPastTheEnd()
    ensures LooksAt(PRIMES, -1, 241591913, |PRIMES|)
  {
    PrimesAreGood();
    LooksPastTheEndExactly(PRIMES, -1, 241591913);
  }
}
