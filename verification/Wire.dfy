/**
 What the Trunnel-generated codecs have in common: big-endian integers, bounded writing with
 back-patching, the three verdicts of a parser, and counted lists of self-delimiting elements.
 */
module Wire {

  type byte = x: nat | x < 0x100
  type u16 = x: nat | x < 0x1_0000
  type u32 = x: nat | x < 0x1_0000_0000
  type bytes16 = s: seq<byte> | |s| == 16 witness seq(16, _ => 0)
  type bytes20 = s: seq<byte> | |s| == 20 witness seq(20, _ => 0)
  type bytes32 = s: seq<byte> | |s| == 32 witness seq(32, _ => 0)
  type bytes64 = s: seq<byte> | |s| == 64 witness seq(64, _ => 0)

  function Zeros(n: nat): (s: seq<byte>)
    ensures |s| == n
  {
    seq(n, _ => 0)
  }

  function Be16(v: u16): (s: seq<byte>)
    ensures |s| == 2
  {
    [v / 0x100, v % 0x100]
  }

  function Be32(v: u32): (s: seq<byte>)
    ensures |s| == 4
  {
    Be16(v / 0x1_0000) + Be16(v % 0x1_0000)
  }

  function Get16(s: seq<byte>): u16
    requires |s| >= 2
  {
    s[0] as int * 0x100 + s[1]
  }

  function Get32(s: seq<byte>): u32
    requires |s| >= 4
  {
    Get16(s) as int * 0x1_0000 + Get16(s[2..])
  }

  ghost predicate AllZero(s: seq<byte>) {
    forall b | b in s :: b == 0
  }

  lemma ZerosAre(n: nat)
    ensures AllZero(Zeros(n))
  {
  }

  /** The most significant byte comes first. */
  lemma BigEndian16(v: u16, s: seq<byte>)
    ensures v == Be16(v)[0] as int * 0x100 + Be16(v)[1]
    ensures |s| >= 2 ==> Get16(s) == s[0] as int * 0x100 + s[1]
  {
  }

  lemma BigEndian32(v: u32, s: seq<byte>)
    ensures var b := Be32(v);
            v == b[0] as int * 0x100_0000 + b[1] as int * 0x1_0000 + b[2] as int * 0x100 + b[3]
    ensures |s| >= 4 ==>
              Get32(s) == s[0] as int * 0x100_0000 + s[1] as int * 0x1_0000 + s[2] as int * 0x100 + s[3]
  {
    hide Be16, Get16;
    BigEndian16(v / 0x1_0000, s);
    BigEndian16(v % 0x1_0000, if |s| >= 2 then s[2..] else []);
  }

  lemma Be16RoundTrip(v: u16, s: seq<byte>)
    ensures Get16(Be16(v) + s) == v
    ensures |s| >= 2 ==> Be16(Get16(s)) == s[..2]
  {
  }

  lemma Be32RoundTrip(v: u32, s: seq<byte>)
    ensures Get32(Be32(v) + s) == v
    ensures |s| >= 4 ==> Be32(Get32(s)) == s[..4]
  {
    hide Be16, Get16;
    Be16RoundTrip(v / 0x1_0000, Be16(v % 0x1_0000) + s);
    Be16RoundTrip(v % 0x1_0000, s);
    assert Be32(v) + s == Be16(v / 0x1_0000) + (Be16(v % 0x1_0000) + s);
    assert (Be32(v) + s)[2..] == Be16(v % 0x1_0000) + s;
    if |s| >= 4 {
      Be16RoundTrip(0, s);
      Be16RoundTrip(0, s[2..]);
    }
  }

  lemma Get32Prefix(s: seq<byte>, t: seq<byte>)
    requires |s| >= 4
    ensures Get32(s + t) == Get32(s)
  {
  }

  lemma Get16Prefix(s: seq<byte>, t: seq<byte>)
    requires |s| >= 2
    ensures Get16(s + t) == Get16(s)
  {
  }

  // ---- parsers ----

  /** The result of a parse function: bytes consumed and the object, -2, or -1. */
  datatype Parsed<+T> = Ok(n: nat, obj: T) | Truncated | Invalid {
    predicate IsFailure() { !Ok? }
    function PropagateFailure<U>(): Parsed<U> requires !Ok? { if Truncated? then Truncated else Invalid }
    function Extract(): (nat, T) requires Ok? { (n, obj) }
  }

  function Drop(s: seq<byte>, n: nat): seq<byte> {
    if n <= |s| then s[n..] else []
  }

  lemma DropAppend(s: seq<byte>, t: seq<byte>, n: nat)
    requires n <= |s|
    ensures Drop(s + t, n) == Drop(s, n) + t && |Drop(s, n)| == |s| - n
  {
  }

  lemma TakeJoin(s: seq<byte>, n: nat, m: nat)
    requires n + m <= |s|
    ensures Drop(s, n)[..m] == s[n..n + m] && s[..n + m] == s[..n] + Drop(s, n)[..m]
  {
  }

  /** Appending bytes changes no verdict other than "truncated". */
  ghost predicate Stable<T(!new)>(parse: seq<byte> -> Parsed<T>) {
    forall s, t :: parse(s) != Truncated ==> parse(s + t) == parse(s)
  }

  /** An accepted object is good and re-encodes to exactly the bytes consumed. */
  ghost predicate Canonical<T(!new)>(parse: seq<byte> -> Parsed<T>, enc: T -> seq<byte>, good: T -> bool) {
    forall s :: var r := parse(s); r.Ok? ==> r.n <= |s| && good(r.obj) && enc(r.obj) == s[..r.n]
  }

  /** No more is consumed than there is. */
  ghost predicate Within<T(!new)>(parse: seq<byte> -> Parsed<T>) {
    forall s :: parse(s).Ok? ==> parse(s).n <= |s|
  }

  /** Parsing undoes encoding on good objects, whatever bytes follow. */
  ghost predicate RoundTrips<T(!new)>(parse: seq<byte> -> Parsed<T>, enc: T -> seq<byte>, good: T -> bool) {
    forall x, t | good(x) :: parse(enc(x) + t) == Ok(|enc(x)|, x)
  }

  /** Every strict prefix of an encoding is reported as truncated. */
  lemma PrefixTruncated<T(!new)>(parse: seq<byte> -> Parsed<T>, enc: T -> seq<byte>, good: T -> bool, x: T, k: nat)
    requires Stable(parse) && Canonical(parse, enc, good) && RoundTrips(parse, enc, good)
    requires good(x) && k < |enc(x)|
    ensures parse(enc(x)[..k]) == Truncated
  {
    var p, q := enc(x)[..k], enc(x)[k..];
    assert p + q == enc(x) == enc(x) + [];
  }

  // ---- counted lists ----

  function ParseMany<T>(parse: seq<byte> -> Parsed<T>, count: nat, s: seq<byte>): Parsed<seq<T>> {
    if count == 0 then Ok(0, [])
    else
      var (n, x) :- parse(s);
      var (m, xs) :- ParseMany(parse, count - 1, Drop(s, n));
      Ok(n + m, [x] + xs)
  }

  lemma ManyStep<T>(parse: seq<byte> -> Parsed<T>, count: nat, s: seq<byte>)
    requires count > 0 && ParseMany(parse, count, s).Ok?
    ensures parse(s).Ok?
    ensures var r, more := ParseMany(parse, count, s), ParseMany(parse, count - 1, Drop(s, parse(s).n));
            more.Ok? && r.n == parse(s).n + more.n && r.obj == [parse(s).obj] + more.obj
  {
  }

  lemma ManyNone<T>(parse: seq<byte> -> Parsed<T>, s: seq<byte>)
    ensures ParseMany(parse, 0, s) == Ok(0, [])
  {
  }

  /** A list result with `n` bytes and the elements `xs` before it. */
  function Prepended<T>(n: nat, xs: seq<T>, r: Parsed<seq<T>>): Parsed<seq<T>> {
    var (m, ys) :- r;
    Ok(n + m, xs + ys)
  }

  lemma PrependedNothing<T>(r: Parsed<seq<T>>)
    ensures Prepended(0, [], r) == r
  {
    assert r.Ok? ==> [] + r.obj == r.obj;
  }

  lemma PrependedEnd<T>(parse: seq<byte> -> Parsed<T>, s: seq<byte>, n: nat, xs: seq<T>)
    ensures Prepended(n, xs, ParseMany(parse, 0, s)) == Ok(n, xs)
  {
    assert xs + [] == xs;
  }

  /** One turn of a loop that parses a list. */
  lemma PrependedStep<T>(parse: seq<byte> -> Parsed<T>, count: nat, s: seq<byte>, n: nat, xs: seq<T>)
    requires count > 0
    ensures Prepended(n, xs, ParseMany(parse, count, s)) ==
            match parse(s)
            case Ok(m, x) => Prepended(n + m, xs + [x], ParseMany(parse, count - 1, Drop(s, m)))
            case Truncated => Truncated
            case Invalid => Invalid
  {
    if parse(s).Ok? {
      var r := ParseMany(parse, count - 1, Drop(s, parse(s).n));
      if r.Ok? {
        assert xs + ([parse(s).obj] + r.obj) == xs + [parse(s).obj] + r.obj;
      }
    }
  }

  function EncodeMany<T>(enc: T -> seq<byte>, xs: seq<T>): seq<byte> {
    if xs == [] then [] else enc(xs[0]) + EncodeMany(enc, xs[1..])
  }

  lemma {:induction false} ManyStable<T(!new)>(parse: seq<byte> -> Parsed<T>, count: nat, s: seq<byte>, t: seq<byte>)
    requires Stable(parse) && Within(parse)
    ensures ParseMany(parse, count, s) != Truncated ==> ParseMany(parse, count, s + t) == ParseMany(parse, count, s)
  {
    hide Stable, Within;
    if count > 0 {
      StableAt(parse, s, t);
      if parse(s).Ok? {
        WithinAt(parse, s);
        var n := parse(s).n;
        assert Drop(s + t, n) == Drop(s, n) + t;
        ManyStable(parse, count - 1, Drop(s, n), t);
      }
    }
  }

  lemma StableAt<T(!new)>(parse: seq<byte> -> Parsed<T>, s: seq<byte>, t: seq<byte>)
    requires Stable(parse)
    ensures parse(s) != Truncated ==> parse(s + t) == parse(s)
  {
  }

  lemma WithinAt<T(!new)>(parse: seq<byte> -> Parsed<T>, s: seq<byte>)
    requires Within(parse) && parse(s).Ok?
    ensures parse(s).n <= |s|
  {
  }

  lemma {:induction false} ManyWithin<T(!new)>(parse: seq<byte> -> Parsed<T>, count: nat, s: seq<byte>)
    requires Within(parse)
    ensures var r := ParseMany(parse, count, s); r.Ok? ==> r.n <= |s| && |r.obj| == count
  {
    hide Within;
    if count > 0 && parse(s).Ok? {
      WithinAt(parse, s);
      ManyWithin(parse, count - 1, Drop(s, parse(s).n));
    }
  }

  lemma EncodeManyCons<T>(enc: T -> seq<byte>, x: T, xs: seq<T>, s: seq<byte>, n: nat, m: nat)
    requires n + m <= |s| && enc(x) == s[..n] && EncodeMany(enc, xs) == s[n..][..m]
    ensures EncodeMany(enc, [x] + xs) == s[..n + m]
  {
    assert ([x] + xs)[1..] == xs;
    assert s[..n + m] == s[..n] + s[n..][..m];
  }

  predicate AllGood<T>(good: T -> bool, xs: seq<T>) {
    forall i | 0 <= i < |xs| :: good(xs[i])
  }

  lemma AllGoodCons<T>(good: T -> bool, x: T, xs: seq<T>)
    requires good(x) && AllGood(good, xs)
    ensures AllGood(good, [x] + xs)
  {
  }

  lemma {:induction false} ManyCanonical<T(!new)>(parse: seq<byte> -> Parsed<T>, enc: T -> seq<byte>, good: T -> bool,
                                                 count: nat, s: seq<byte>)
    requires Canonical(parse, enc, good)
    ensures var r := ParseMany(parse, count, s);
            r.Ok? ==> r.n <= |s| && |r.obj| == count && AllGood(good, r.obj) && EncodeMany(enc, r.obj) == s[..r.n]
  {
    hide Canonical, AllGood, EncodeMany;
    if count == 0 {
      NoneGood(enc, good);
    } else if parse(s).Ok? {
      CanonicalAt(parse, enc, good, s);
      var n, x := parse(s).n, parse(s).obj;
      ManyCanonical(parse, enc, good, count - 1, s[n..]);
      var more := ParseMany(parse, count - 1, s[n..]);
      if more.Ok? {
        EncodeManyCons(enc, x, more.obj, s, n, more.n);
        AllGoodCons(good, x, more.obj);
      }
    }
  }

  lemma NoneGood<T>(enc: T -> seq<byte>, good: T -> bool)
    ensures AllGood(good, []) && EncodeMany(enc, []) == []
  {
  }

  lemma CanonicalAt<T(!new)>(parse: seq<byte> -> Parsed<T>, enc: T -> seq<byte>, good: T -> bool, s: seq<byte>)
    requires Canonical(parse, enc, good) && parse(s).Ok?
    ensures parse(s).n <= |s| && good(parse(s).obj) && enc(parse(s).obj) == s[..parse(s).n]
  {
  }

  lemma {:induction false} ManyRoundTrips<T(!new)>(parse: seq<byte> -> Parsed<T>, enc: T -> seq<byte>, good: T -> bool,
                                                  xs: seq<T>, t: seq<byte>)
    requires RoundTrips(parse, enc, good) && AllGood(good, xs)
    ensures ParseMany(parse, |xs|, EncodeMany(enc, xs) + t) == Ok(|EncodeMany(enc, xs)|, xs)
  {
    hide RoundTrips;
    if xs != [] {
      assert AllGood(good, xs[1..]);
      var e, more := enc(xs[0]), EncodeMany(enc, xs[1..]);
      ManyRoundTrips(parse, enc, good, xs[1..], t);
      RoundTripsAt(parse, enc, good, xs[0], more + t);
      assert e + more + t == e + (more + t);
      assert Drop(e + (more + t), |e|) == more + t;
      assert [xs[0]] + xs[1..] == xs;
    }
  }

  lemma RoundTripsAt<T(!new)>(parse: seq<byte> -> Parsed<T>, enc: T -> seq<byte>, good: T -> bool, x: T, t: seq<byte>)
    requires RoundTrips(parse, enc, good) && good(x)
    ensures parse(enc(x) + t) == Ok(|enc(x)|, x)
  {
  }

  lemma DropDrop(s: seq<byte>, n: nat, m: nat)
    ensures Drop(Drop(s, n), m) == Drop(s, n + m) && Drop(s, 0) == s
  {
  }

  /** A list fails when one of its elements does, and with the verdict of the first that does. */
  lemma {:induction false} ManyFailsAt<T>(parse: seq<byte> -> Parsed<T>, count: nat, s: seq<byte>, k: nat)
    requires k < count && ParseMany(parse, k, s).Ok? && !parse(Drop(s, ParseMany(parse, k, s).n)).Ok?
    ensures ParseMany(parse, count, s) == parse(Drop(s, ParseMany(parse, k, s).n)).PropagateFailure()
  {
    hide Drop;
    DropDrop(s, 0, 0);
    if k > 0 {
      ManyStep(parse, k, s);
      var n := parse(s).n;
      DropDrop(s, n, ParseMany(parse, k - 1, Drop(s, n)).n);
      ManyFailsAt(parse, count - 1, Drop(s, n), k - 1);
    }
  }

  lemma {:induction false} ManyFirstFailure<T>(parse: seq<byte> -> Parsed<T>, count: nat, s: seq<byte>) returns (k: nat)
    requires !ParseMany(parse, count, s).Ok?
    ensures k < count && ParseMany(parse, k, s).Ok? && !parse(Drop(s, ParseMany(parse, k, s).n)).Ok?
    ensures ParseMany(parse, count, s) == parse(Drop(s, ParseMany(parse, k, s).n)).PropagateFailure()
  {
    hide Drop;
    DropDrop(s, 0, 0);
    k := 0;
    if parse(s).Ok? {
      var n := parse(s).n;
      var j := ManyFirstFailure(parse, count - 1, Drop(s, n));
      DropDrop(s, n, ParseMany(parse, j, Drop(s, n)).n);
      k := j + 1;
    }
  }

  /** Where no element can be invalid, no list is. */
  lemma ManyNeverInvalid<T(!new)>(parse: seq<byte> -> Parsed<T>, count: nat, s: seq<byte>)
    requires forall u :: parse(u) != Invalid
    ensures ParseMany(parse, count, s) != Invalid
  {
    if !ParseMany(parse, count, s).Ok? {
      var k := ManyFirstFailure(parse, count, s);
    }
  }

  // ---- where the bytes of a list are ----

  /** `s` is the elements of `xs` one after the other, each laid out in as many bytes as it takes. */
  ghost predicate LaidOut<T>(layout: (seq<byte>, T) -> bool, len: T -> nat, s: seq<byte>, xs: seq<T>)
    decreases |xs|
  {
    if xs == [] then s == []
    else
      var n := len(xs[0]);
      n <= |s| && layout(s[..n], xs[0]) && LaidOut(layout, len, s[n..], xs[1..])
  }

  lemma {:induction false} ManyLaidOut<T(!new)>(layout: (seq<byte>, T) -> bool, len: T -> nat, enc: T -> seq<byte>,
                                               xs: seq<T>)
    requires forall x | x in xs :: |enc(x)| == len(x) && layout(enc(x), x)
    ensures LaidOut(layout, len, EncodeMany(enc, xs), xs)
  {
    if xs != [] {
      ManyLaidOut(layout, len, enc, xs[1..]);
      var e, s := enc(xs[0]), EncodeMany(enc, xs);
      assert s[..|e|] == e && s[|e|..] == EncodeMany(enc, xs[1..]);
    }
  }

  // ---- a list behind its count ----

  function ParseCounted<T>(parse: seq<byte> -> Parsed<T>, s: seq<byte>): Parsed<seq<T>> {
    if |s| < 1 then Truncated
    else
      var (n, xs) :- ParseMany(parse, s[0], s[1..]);
      Ok(1 + n, xs)
  }

  function CountedBytes<T>(enc: T -> seq<byte>, count: byte, xs: seq<T>): seq<byte> {
    [count] + EncodeMany(enc, xs)
  }

  lemma CountedStable<T(!new)>(parse: seq<byte> -> Parsed<T>, s: seq<byte>, t: seq<byte>)
    requires Stable(parse) && Within(parse)
    ensures ParseCounted(parse, s) != Truncated ==> |s| >= 1 && ParseCounted(parse, s + t) == ParseCounted(parse, s)
  {
    hide Stable, Within, ParseMany;
    if |s| >= 1 {
      ManyStable(parse, s[0], s[1..], t);
      assert (s + t)[1..] == s[1..] + t;
    }
  }

  lemma CountedCanonical<T(!new)>(parse: seq<byte> -> Parsed<T>, enc: T -> seq<byte>, good: T -> bool, s: seq<byte>)
    requires Canonical(parse, enc, good) && ParseCounted(parse, s).Ok?
    ensures var r := ParseCounted(parse, s);
            1 <= r.n <= |s| && |r.obj| == s[0] && AllGood(good, r.obj) && CountedBytes(enc, s[0], r.obj) == s[..r.n]
  {
    hide Canonical, AllGood, ParseMany, EncodeMany;
    ManyCanonical(parse, enc, good, s[0], s[1..]);
    assert s[..ParseCounted(parse, s).n] == [s[0]] + s[1..][..ParseCounted(parse, s).n - 1];
  }

  lemma CountedRoundTrips<T(!new)>(parse: seq<byte> -> Parsed<T>, enc: T -> seq<byte>, good: T -> bool,
                                   count: byte, xs: seq<T>, t: seq<byte>)
    requires RoundTrips(parse, enc, good) && |xs| == count && AllGood(good, xs)
    ensures ParseCounted(parse, CountedBytes(enc, count, xs) + t) == Ok(|CountedBytes(enc, count, xs)|, xs)
  {
    hide RoundTrips, AllGood, ParseMany, EncodeMany;
    var e := EncodeMany(enc, xs);
    ManyRoundTrips(parse, enc, good, xs, t);
    assert CountedBytes(enc, count, xs) + t == [count] + (e + t) && ([count] + (e + t))[1..] == e + t;
  }

  function Mapped<T>(f: T -> T, xs: seq<T>): seq<T> {
    if xs == [] then [] else [f(xs[0])] + Mapped(f, xs[1..])
  }

  /** A change to the elements that no encoding shows. */
  lemma {:induction false} MappedSame<T(!new)>(enc: T -> seq<byte>, f: T -> T, good: T -> bool, xs: seq<T>)
    requires forall x | x in xs :: enc(f(x)) == enc(x) && good(f(x))
    ensures |Mapped(f, xs)| == |xs| && AllGood(good, Mapped(f, xs))
    ensures EncodeMany(enc, Mapped(f, xs)) == EncodeMany(enc, xs)
  {
    if xs != [] {
      MappedSame(enc, f, good, xs[1..]);
      AllGoodCons(good, f(xs[0]), Mapped(f, xs[1..]));
      assert Mapped(f, xs)[1..] == Mapped(f, xs[1..]);
    }
  }

  // ---- writing counted lists ----

  function TotalLen<T>(len: T -> nat, xs: seq<T>): nat {
    if xs == [] then 0 else len(xs[0]) + TotalLen(len, xs[1..])
  }

  /** What encoding `xs` one after the other into `avail` bytes returns: the first failure, or the total. */
  function ManyResult<T>(result: (T, nat) -> int, xs: seq<T>, avail: nat): int {
    if xs == [] then 0
    else
      var r := result(xs[0], avail);
      if r < 0 || r > avail then r
      else
        var m := ManyResult(result, xs[1..], avail - r);
        if m < 0 then m else r + m
  }

  /**
   An element encoder reports -2 when out of room and -1, if there is room, when the element does not fit
   its format.
   */
  ghost predicate ElementResult<T(!new)>(result: (T, nat) -> int, len: T -> nat, fits: T -> bool) {
    forall x, avail: nat :: result(x, avail) == if avail < len(x) then -2 else if fits(x) then len(x) else -1
  }

  /** Encoding a list succeeds exactly when every element fits its format and the total fits the buffer. */
  lemma {:induction false} ManyResultExactly<T(!new)>(result: (T, nat) -> int, len: T -> nat, fits: T -> bool,
                                                     xs: seq<T>, avail: nat)
    requires ElementResult(result, len, fits)
    ensures ManyResult(result, xs, avail) >= 0 <==> TotalLen(len, xs) <= avail && forall x | x in xs :: fits(x)
    ensures (forall x | x in xs :: fits(x)) ==>
              ManyResult(result, xs, avail) == if TotalLen(len, xs) <= avail then TotalLen(len, xs) else -2
    ensures ManyResult(result, xs, avail) >= 0 || ManyResult(result, xs, avail) == -1 ||
              ManyResult(result, xs, avail) == -2
  {
    if xs != [] && len(xs[0]) <= avail {
      ManyResultExactly(result, len, fits, xs[1..], avail - len(xs[0]));
    }
  }

  lemma {:induction false} ManyLength<T(!new)>(enc: T -> seq<byte>, len: T -> nat, xs: seq<T>)
    requires forall x | x in xs :: |enc(x)| == len(x)
    ensures |EncodeMany(enc, xs)| == TotalLen(len, xs)
  {
    if xs != [] {
      ManyLength(enc, len, xs[1..]);
    }
  }

  lemma {:induction false} TotalLenAtMost<T>(len: T -> nat, xs: seq<T>, bound: nat)
    requires forall x | x in xs :: len(x) <= bound
    ensures TotalLen(len, xs) <= |xs| * bound
  {
    if xs != [] {
      TotalLenAtMost(len, xs[1..], bound);
      assert |xs| * bound == (|xs| - 1) * bound + bound;
    }
  }

  lemma {:induction false} ManyAppend<T>(enc: T -> seq<byte>, xs: seq<T>, x: T)
    ensures EncodeMany(enc, xs + [x]) == EncodeMany(enc, xs) + enc(x)
  {
    if xs == [] {
      assert xs + [x] == [x] && [x][1..] == [];
    } else {
      assert (xs + [x])[1..] == xs[1..] + [x];
      ManyAppend(enc, xs[1..], x);
    }
  }
}
