/** netinfo.c: tagged addresses of which unknown kinds are skipped, and the cell that lists them. */
module Netinfo {
  import opened Wire
  import opened Buffer

  const ADDR_TYPE_IPV4: byte := 4
  const ADDR_TYPE_IPV6: byte := 6

  datatype Addr = Addr(addrType: byte, len: byte, ipv4: u32, ipv6: bytes16)

  const BLANK: Addr := Addr(0, 0, 0, Zeros(16))

  /** The bytes of the active arm; an unknown kind has none. */
  function Payload(x: Addr): seq<byte> {
    if x.addrType == ADDR_TYPE_IPV4 then Be32(x.ipv4)
    else if x.addrType == ADDR_TYPE_IPV6 then x.ipv6
    else []
  }

  function AddrLen(x: Addr): nat {
    2 + |Payload(x)|
  }

  function AddrBytes(x: Addr): seq<byte> {
    [x.addrType, |Payload(x)|] + Payload(x)
  }

  /** The same address with the length that is sent and inactive arms blank. */
  function Settled(x: Addr): Addr {
    var b := BLANK.(addrType := x.addrType, len := |Payload(x)|);
    if x.addrType == ADDR_TYPE_IPV4 then b.(ipv4 := x.ipv4)
    else if x.addrType == ADDR_TYPE_IPV6 then b.(ipv6 := x.ipv6)
    else b
  }

  predicate IsSettled(x: Addr) {
    x == Settled(x)
  }

  function ParseAddr(s: seq<byte>): Parsed<Addr> {
    if |s| < 2 || |s| < 2 + s[1] as int then Truncated
    else
      var arm, b := s[2..2 + s[1] as int], BLANK.(addrType := s[0], len := s[1]);
      if s[0] == ADDR_TYPE_IPV4 then
        if |arm| == 4 then Ok(6, b.(ipv4 := Get32(arm))) else Invalid
      else if s[0] == ADDR_TYPE_IPV6 then
        if |arm| == 16 then Ok(18, b.(ipv6 := arm)) else Invalid
      else Ok(2 + |arm|, b)
  }

  predicate Known(kind: byte) {
    kind == ADDR_TYPE_IPV4 || kind == ADDR_TYPE_IPV6
  }

  /** The bytes an accepted address was parsed from but encoding leaves out. */
  function Skipped(x: Addr): nat {
    if Known(x.addrType) then 0 else x.len
  }

  /** An address with its length byte, of which an unknown kind keeps the tag alone. */
  function Kept(s: seq<byte>): seq<byte>
    requires |s| >= 2 && |s| >= 2 + s[1] as int
  {
    if Known(s[0]) then s[..2 + s[1] as int] else [s[0], 0]
  }

  /** The same for `count` addresses in a row. */
  function KeptMany(count: nat, s: seq<byte>): seq<byte> {
    if count == 0 || |s| < 2 || |s| < 2 + s[1] as int then []
    else Kept(s) + KeptMany(count - 1, Drop(s, 2 + s[1] as int))
  }

  lemma AddrStable()
    ensures Stable(ParseAddr)
  {
    forall s, t | ParseAddr(s) != Truncated ensures ParseAddr(s + t) == ParseAddr(s) {
      assert (s + t)[2..2 + s[1]] == s[2..2 + s[1] as int];
    }
  }

  lemma AddrWithin()
    ensures Within(ParseAddr)
  {
  }

  lemma ParseUndoesAddrBytes(x: Addr, t: seq<byte>)
    ensures ParseAddr(AddrBytes(x) + t) == Ok(AddrLen(x), Settled(x))
  {
    var s, p := AddrBytes(x) + t, Payload(x);
    assert s[2..2 + s[1] as int] == p;
    if x.addrType == ADDR_TYPE_IPV4 {
      Be32RoundTrip(x.ipv4, []);
      assert p + [] == p;
    }
  }

  lemma AddrRoundTrips()
    ensures RoundTrips(ParseAddr, AddrBytes, IsSettled)
  {
    hide ParseAddr;
    forall x, t | IsSettled(x) ensures ParseAddr(AddrBytes(x) + t) == Ok(|AddrBytes(x)|, x) {
      ParseUndoesAddrBytes(x, t);
    }
  }

  /** Every byte consumed is either encoded again or skipped data of an unknown kind. */
  lemma AddrAccounts(s: seq<byte>)
    requires ParseAddr(s).Ok?
    ensures var r := ParseAddr(s);
            2 <= |s| && r.n == 2 + s[1] as int <= |s| && r.n == AddrLen(r.obj) + Skipped(r.obj) &&
            Settled(r.obj) == r.obj.(len := |Payload(r.obj)|)
    ensures var r := ParseAddr(s); AddrBytes(r.obj) == Kept(s) && (Skipped(r.obj) == 0 ==> Kept(s) == s[..r.n])
  {
    var arm, x := s[2..2 + s[1] as int], ParseAddr(s).obj;
    if s[0] == ADDR_TYPE_IPV4 {
      Be32RoundTrip(0, arm);
      assert arm[..4] == arm;
    }
  }

  function SettledAll(xs: seq<Addr>): seq<Addr> {
    Mapped(Settled, xs)
  }

  lemma SettledTwice(x: Addr)
    ensures IsSettled(Settled(x)) && AddrBytes(Settled(x)) == AddrBytes(x)
  {
  }

  lemma SettledAllSame(xs: seq<Addr>)
    ensures |SettledAll(xs)| == |xs| && AllGood(IsSettled, SettledAll(xs))
    ensures EncodeMany(AddrBytes, SettledAll(xs)) == EncodeMany(AddrBytes, xs)
  {
    hide IsSettled, Settled, AddrBytes;
    forall x | x in xs ensures AddrBytes(Settled(x)) == AddrBytes(x) && IsSettled(Settled(x)) {
      SettledTwice(x);
    }
    MappedSame(AddrBytes, Settled, IsSettled, xs);
  }

  function SkippedAll(xs: seq<Addr>): nat {
    if xs == [] then 0 else Skipped(xs[0]) + SkippedAll(xs[1..])
  }

  function SentLens(xs: seq<Addr>): seq<Addr> {
    if xs == [] then [] else [xs[0].(len := |Payload(xs[0])|)] + SentLens(xs[1..])
  }

  lemma {:induction false} ManyAccounts(count: nat, s: seq<byte>)
    requires ParseMany(ParseAddr, count, s).Ok?
    ensures var r := ParseMany(ParseAddr, count, s);
            r.n <= |s| && |r.obj| == count && r.n == |EncodeMany(AddrBytes, r.obj)| + SkippedAll(r.obj) &&
            SettledAll(r.obj) == SentLens(r.obj) && EncodeMany(AddrBytes, r.obj) == KeptMany(count, s) &&
            (SkippedAll(r.obj) == 0 ==> EncodeMany(AddrBytes, r.obj) == s[..r.n])
    decreases count
  {
    hide ParseAddr, ParseMany, Drop, AddrBytes, Kept, Settled, SettledAll, SentLens, Skipped, SkippedAll,
         EncodeMany, Payload;
    if count == 0 {
      ManyNone(ParseAddr, s);
      NoneAccounts();
    } else {
      ManyStep(ParseAddr, count, s);
      var n, x := ParseAddr(s).n, ParseAddr(s).obj;
      AddrAccounts(s);
      DropAppend(s, [], n);
      ManyAccounts(count - 1, Drop(s, n));
      var more := ParseMany(ParseAddr, count - 1, Drop(s, n));
      ConsAccounts(x, more.obj);
      AddrBytesLength(x);
      TakeJoin(s, n, more.n);
    }
  }

  lemma NoneAccounts()
    ensures EncodeMany(AddrBytes, []) == [] && SkippedAll([]) == 0 && SettledAll([]) == SentLens([])
  {
  }

  lemma ConsAccounts(x: Addr, xs: seq<Addr>)
    ensures EncodeMany(AddrBytes, [x] + xs) == AddrBytes(x) + EncodeMany(AddrBytes, xs)
    ensures SkippedAll([x] + xs) == Skipped(x) + SkippedAll(xs)
    ensures SettledAll([x] + xs) == [Settled(x)] + SettledAll(xs)
    ensures SentLens([x] + xs) == [x.(len := |Payload(x)|)] + SentLens(xs)
  {
    hide AddrBytes, Settled, Skipped, Payload;
    assert ([x] + xs)[1..] == xs;
  }

  lemma AddrBytesLength(x: Addr)
    ensures |AddrBytes(x)| == AddrLen(x)
  {
  }

  // ---- the cell ----

  datatype Cell = Cell(timestamp: u32, otherAddr: Addr, nMyAddrs: byte, myAddrs: seq<Addr>)

  predicate CheckOk(x: Cell) {
    |x.myAddrs| == x.nMyAddrs
  }

  function Bytes(x: Cell): seq<byte> {
    Be32(x.timestamp) + AddrBytes(x.otherAddr) + [x.nMyAddrs] + EncodeMany(AddrBytes, x.myAddrs)
  }

  function EncodedLen(x: Cell): nat {
    5 + AddrLen(x.otherAddr) + TotalLen(AddrLen, x.myAddrs)
  }

  function Parse(s: seq<byte>): Parsed<Cell> {
    if |s| < 4 then Truncated
    else
      var (n, other) :- ParseAddr(s[4..]);
      var t := Drop(s, 4 + n);
      var (m, xs) :- ParseCounted(ParseAddr, t);
      Ok(4 + n + m, Cell(Get32(s), other, t[0], xs))
  }

  lemma ParseStable(s: seq<byte>, t: seq<byte>)
    ensures Parse(s) != Truncated ==> Parse(s + t) == Parse(s)
  {
    hide ParseAddr, ParseCounted, Stable, Within, Get32, Drop;
    AddrStable();
    AddrWithin();
    if |s| >= 4 {
      Get32Prefix(s, t);
      assert (s + t)[4..] == s[4..] + t;
      StableAt(ParseAddr, s[4..], t);
      if ParseAddr(s[4..]).Ok? {
        WithinAt(ParseAddr, s[4..]);
        var n := ParseAddr(s[4..]).n;
        DropAppend(s, t, 4 + n);
        CountedStable(ParseAddr, Drop(s, 4 + n), t);
      }
    }
  }

  function SettledCell(x: Cell): Cell {
    Cell(x.timestamp, Settled(x.otherAddr), x.nMyAddrs, SettledAll(x.myAddrs))
  }

  lemma ParseUndoesBytes(x: Cell, t: seq<byte>)
    requires CheckOk(x)
    ensures Parse(Bytes(x) + t) == Ok(|Bytes(x)|, SettledCell(x))
  {
    hide ParseAddr, ParseCounted, AddrBytes, EncodeMany, Settled, SettledAll, IsSettled, RoundTrips, Be32, Get32;
    var a, v := AddrBytes(x.otherAddr), CountedBytes(AddrBytes, x.nMyAddrs, x.myAddrs) + t;
    var s := Be32(x.timestamp) + (a + v);
    assert Bytes(x) + t == s && s[4..] == a + v;
    Be32RoundTrip(x.timestamp, a + v);
    ParseUndoesAddrBytes(x.otherAddr, v);
    AddrBytesLength(x.otherAddr);
    assert Drop(s, 4 + |a|) == v;
    SettledAllSame(x.myAddrs);
    AddrRoundTrips();
    CountedRoundTrips(ParseAddr, AddrBytes, IsSettled, x.nMyAddrs, SettledAll(x.myAddrs), t);
  }

  /** Which addresses get which verdict. */
  lemma AddrVerdictsExactly(s: seq<byte>)
    ensures ParseAddr(s) == Truncated <==> |s| < 2 || |s| < 2 + s[1] as int
    ensures ParseAddr(s) == Invalid <==>
              |s| >= 2 && |s| >= 2 + s[1] as int && ((s[0] == 4 && s[1] != 4) || (s[0] == 6 && s[1] != 16))
  {
    hide Get32;
  }

  /** The parser fills the arm of a known kind, and leaves the others as a fresh struct has them. */
  lemma OtherArmsBlank(s: seq<byte>)
    requires ParseAddr(s).Ok?
    ensures var x := ParseAddr(s).obj; (s[0] != 4 ==> x.ipv4 == 0) && (s[0] != 6 ==> AllZero(x.ipv6))
  {
    hide AllZero, Get32;
    ZerosAre(16);
  }

  /** A cell is invalid when an address in it is. */
  lemma InvalidExactly(s: seq<byte>)
    ensures Parse(s) == Invalid <==>
              |s| >= 4 && (ParseAddr(s[4..]) == Invalid ||
                           (ParseAddr(s[4..]).Ok? &&
                            var t := Drop(s, 4 + ParseAddr(s[4..]).n);
                            |t| >= 1 && exists k: nat ::
                              k < t[0] && ParseMany(ParseAddr, k, t[1..]).Ok? &&
                              ParseAddr(Drop(t[1..], ParseMany(ParseAddr, k, t[1..]).n)) == Invalid))
  {
    hide ParseAddr, ParseMany, Drop, Get32;
    if |s| >= 4 && ParseAddr(s[4..]).Ok? {
      var t := Drop(s, 4 + ParseAddr(s[4..]).n);
      if |t| >= 1 {
        if ParseMany(ParseAddr, t[0], t[1..]) == Invalid {
          var k := ManyFirstFailure(ParseAddr, t[0], t[1..]);
          assert ParseAddr(Drop(t[1..], ParseMany(ParseAddr, k, t[1..]).n)) == Invalid;
        }
        if k: nat :| k < t[0] && ParseMany(ParseAddr, k, t[1..]).Ok? &&
                     ParseAddr(Drop(t[1..], ParseMany(ParseAddr, k, t[1..]).n)) == Invalid {
          ManyFailsAt(ParseAddr, t[0], t[1..], k);
        }
      }
    }
  }

  lemma PrefixIsTruncated(x: Cell, k: nat)
    requires CheckOk(x) && k < |Bytes(x)|
    ensures Parse(Bytes(x)[..k]) == Truncated
  {
    hide Parse, Bytes;
    ParseUndoesBytes(x, []);
    var p, q := Bytes(x)[..k], Bytes(x)[k..];
    assert p + q == Bytes(x) == Bytes(x) + [];
    ParseStable(p, q);
    if Parse(p).Ok? {
      ParseAccounts(p);
    }
  }

  function SkippedCell(x: Cell): nat {
    Skipped(x.otherAddr) + SkippedAll(x.myAddrs)
  }

  /** The input's bytes that re-encoding keeps: everything but the data of addresses of unknown kind. */
  function KeptCell(s: seq<byte>): seq<byte>
    requires |s| >= 6 && |s| >= 7 + s[5] as int
  {
    var t := Drop(s, 6 + s[5] as int);
    s[..4] + Kept(s[4..]) + [t[0]] + KeptMany(t[0], t[1..])
  }

  lemma ParsePieces(s: seq<byte>)
    requires Parse(s).Ok?
    ensures |s| >= 6 && |s| >= 7 + s[5] as int
    ensures var n, t, x := 2 + s[5] as int, Drop(s, 6 + s[5] as int), Parse(s).obj;
            ParseAddr(s[4..]).Ok? && ParseAddr(s[4..]).n == n && ParseAddr(s[4..]).obj == x.otherAddr &&
            ParseMany(ParseAddr, t[0], t[1..]) == Ok(Parse(s).n - 5 - n, x.myAddrs) && Parse(s).n >= 5 + n &&
            x.nMyAddrs == t[0] && x.timestamp == Get32(s)
  {
    hide ParseAddr, ParseMany, Get32, AddrBytes, Kept, Settled, Skipped;
    AddrAccounts(s[4..]);
  }

  /** Re-encoding gives exactly those bytes, which are the input when no address is of unknown kind. */
  lemma ParseAccounts(s: seq<byte>)
    requires Parse(s).Ok?
    ensures var r := Parse(s); r.n <= |s| && CheckOk(r.obj) && r.n == |Bytes(r.obj)| + SkippedCell(r.obj)
    ensures |s| >= 6 && |s| >= 7 + s[5] as int && Bytes(Parse(s).obj) == KeptCell(s)
    ensures var r := Parse(s); Bytes(r.obj) == s[..r.n] <==> SkippedCell(r.obj) == 0
  {
    hide Parse, ParseAddr, ParseMany, AddrBytes, EncodeMany, Kept, KeptMany, Settled, SettledAll, Skipped, SkippedAll,
         Be32, Get32;
    ParsePieces(s);
    var r, n, t := Parse(s), 2 + s[5] as int, Drop(s, 6 + s[5] as int);
    AddrAccounts(s[4..]);
    AddrBytesLength(r.obj.otherAddr);
    ManyAccounts(t[0], t[1..]);
    Be32RoundTrip(0, s);
    if SkippedCell(r.obj) == 0 {
      Pieces(s, n, r.n);
    }
  }

  lemma Pieces(s: seq<byte>, n: nat, k: nat)
    requires 5 + n <= k <= |s|
    ensures var t := Drop(s, 4 + n); s[..k] == s[..4] + s[4..][..n] + [t[0]] + t[1..][..k - 5 - n]
  {
  }

  /** The same cell with every address length as it is sent. */
  function SentCell(x: Cell): Cell {
    x.(otherAddr := x.otherAddr.(len := |Payload(x.otherAddr)|), myAddrs := SentLens(x.myAddrs))
  }

  /** Parsing what was re-encoded gives the same object up to the lengths, and encoding again changes nothing. */
  lemma NormalForm(s: seq<byte>)
    requires Parse(s).Ok?
    ensures var x := Parse(s).obj; Parse(Bytes(x)) == Ok(|Bytes(x)|, SentCell(x)) && Bytes(SentCell(x)) == Bytes(x)
  {
    hide ParseAddr, AddrBytes, EncodeMany, Settled, SettledAll, Be32, Get32, Payload;
    var x := Parse(s).obj;
    ParseSettles(s);
    ParseAccounts(s);
    ParseUndoesBytes(x, []);
    assert Bytes(x) + [] == Bytes(x);
    SettledTwice(x.otherAddr);
    SettledAllSame(x.myAddrs);
  }

  lemma ParseSettles(s: seq<byte>)
    requires Parse(s).Ok?
    ensures SettledCell(Parse(s).obj) == SentCell(Parse(s).obj)
  {
    hide ParseAddr, AddrBytes, EncodeMany, Settled, Get32, Payload;
    AddrAccounts(s[4..]);
    var t := Drop(s, 4 + ParseAddr(s[4..]).n);
    ManyAccounts(t[0], t[1..]);
  }

  // ---- where the bytes are ----

  /** An address, by position; what an unknown kind carries is not looked at. */
  ghost predicate AddrLayout(s: seq<byte>, x: Addr) {
    && |s| >= 2 && x.addrType == s[0] && x.len == s[1] && |s| == 2 + x.len as int
    && (s[0] == 4 ==>
          && |s| == 6
          && x.ipv4 == s[2] as int * 0x100_0000 + s[3] as int * 0x1_0000 + s[4] as int * 0x100 + s[5])
    && (s[0] == 6 ==> |s| == 18 && x.ipv6 == s[2..])
  }

  ghost function AddrSpan(x: Addr): nat {
    2 + x.len as int
  }

  lemma AddrLaidOut(x: Addr)
    ensures AddrLayout(AddrBytes(x), Settled(x)) && |AddrBytes(x)| == AddrSpan(Settled(x))
  {
    hide Be32;
    BigEndian32(x.ipv4, []);
    assert AddrBytes(x)[2..] == Payload(x);
  }

  lemma ParsedAddrLaidOut(s: seq<byte>)
    ensures var r := ParseAddr(s); r.Ok? ==> r.n == AddrSpan(r.obj) <= |s| && AddrLayout(s[..r.n], r.obj)
  {
    hide Get32;
    if |s| >= 6 {
      BigEndian32(0, s[2..2 + 4]);
    }
  }

  lemma {:induction false} ParsedManyLaidOut(count: nat, s: seq<byte>)
    ensures var r := ParseMany(ParseAddr, count, s);
            r.Ok? ==> r.n <= |s| && |r.obj| == count && LaidOut(AddrLayout, AddrSpan, s[..r.n], r.obj)
    decreases count
  {
    hide ParseAddr, ParseMany, Drop, AddrLayout, AddrSpan;
    var r := ParseMany(ParseAddr, count, s);
    if count == 0 {
      ManyNone(ParseAddr, s);
    } else if r.Ok? {
      ManyStep(ParseAddr, count, s);
      ParsedAddrLaidOut(s);
      var n := ParseAddr(s).n;
      DropAppend(s, [], n);
      ParsedManyLaidOut(count - 1, Drop(s, n));
      var more := ParseMany(ParseAddr, count - 1, Drop(s, n));
      TakeJoin(s, n, more.n);
      assert s[..r.n][..n] == s[..n] && s[..r.n][n..] == Drop(s, n)[..more.n];
      assert r.obj[1..] == more.obj;
    }
  }

  /** The cell: the time first, then an address, the count at the place the address leaves for it, and the others. */
  ghost predicate Layout(s: seq<byte>, x: Cell) {
    && |s| >= 6 && |s| >= 7 + s[5] as int
    && x.timestamp == s[0] as int * 0x100_0000 + s[1] as int * 0x1_0000 + s[2] as int * 0x100 + s[3]
    && var c := 6 + s[5] as int;
       && AddrLayout(s[4..c], x.otherAddr)
       && x.nMyAddrs == s[c] && |x.myAddrs| == s[c] && LaidOut(AddrLayout, AddrSpan, s[c + 1..], x.myAddrs)
  }

  lemma BytesLaidOut(x: Cell)
    requires CheckOk(x)
    ensures Layout(Bytes(x), SettledCell(x))
  {
    hide Be32, AddrLayout, AddrSpan, AddrBytes, Settled, EncodeMany, LaidOut;
    BigEndian32(x.timestamp, []);
    AddrLaidOut(x.otherAddr);
    ManyBytesLaidOut(x.myAddrs);
    var a, e, s := AddrBytes(x.otherAddr), EncodeMany(AddrBytes, x.myAddrs), Bytes(x);
    LayoutStart(a, Settled(x.otherAddr));
    assert s[4..4 + |a|] == a && s[5] == a[1] && s[4 + |a|] == x.nMyAddrs && s[5 + |a|..] == e;
  }

  lemma LayoutStart(a: seq<byte>, x: Addr)
    requires AddrLayout(a, x)
    ensures |a| >= 2 && |a| == 2 + a[1] as int
  {
  }

  lemma ManyBytesLaidOut(xs: seq<Addr>)
    ensures LaidOut(AddrLayout, AddrSpan, EncodeMany(AddrBytes, xs), SettledAll(xs)) && |SettledAll(xs)| == |xs|
  {
    hide AddrLayout, AddrSpan, AddrBytes, Settled, IsSettled, AllGood, SettledAll;
    SettledAllSame(xs);
    var ys := SettledAll(xs);
    forall y | y in ys ensures |AddrBytes(y)| == AddrSpan(y) && AddrLayout(AddrBytes(y), y) {
      SettledOf(ys, y);
      AddrLaidOut(y);
    }
    ManyLaidOut(AddrLayout, AddrSpan, AddrBytes, ys);
  }

  lemma SettledOf(ys: seq<Addr>, y: Addr)
    requires AllGood(IsSettled, ys) && y in ys
    ensures Settled(y) == y
  {
  }

  lemma ParsedLaidOut(s: seq<byte>)
    ensures var r := Parse(s); r.Ok? ==> r.n <= |s| && Layout(s[..r.n], r.obj)
  {
    hide Parse, ParseAddr, ParseMany, Get32, AddrLayout, AddrSpan, LaidOut, Kept, KeptMany, Bytes;
    var r := Parse(s);
    if r.Ok? {
      ParsePieces(s);
      ParseAccounts(s);
      var n, t, p := 2 + s[5] as int, Drop(s, 6 + s[5] as int), s[..r.n];
      ParsedAddrLaidOut(s[4..]);
      ParsedManyLaidOut(t[0], t[1..]);
      BigEndian32(0, s);
      assert p[4..4 + n] == s[4..][..n] && p[5 + n..] == t[1..][..r.n - 5 - n];
    }
  }

  // ---- the encoders and parsers ----

  method EncodeAddr(out: array<byte>, off: nat, avail: nat, x: Addr) returns (r: int)
    requires off + avail <= out.Length
    modifies out
    ensures r == if avail < AddrLen(x) then -2 else AddrLen(x)
    ensures SameOutside(old(out[..]), out[..], off, avail)
    ensures r >= 0 ==> Holds(out, old(out[..]), off, AddrBytes(x))
  {
    hide Holds, SameOutside, Be32;
    ghost var o := out[..];
    HoldsNothing(out, off, avail);
    assert [] + [x.addrType] == [x.addrType] && [x.addrType] + [x.len] == [x.addrType, x.len];
    var w := Emit(out, off, avail, 0, [x.addrType], o, []);
    if w < 0 {
      return -2;
    }
    var backptr := w;
    ghost var h := [x.addrType, x.len];
    w := Emit(out, off, avail, w, [x.len], o, [x.addrType]);
    if w < 0 {
      return -2;
    }
    var beforeUnion := w;
    assert h + [] == h;
    if x.addrType == ADDR_TYPE_IPV4 {
      w := Emit(out, off, avail, w, Be32(x.ipv4), o, h);
    } else if x.addrType == ADDR_TYPE_IPV6 {
      w := Emit(out, off, avail, w, x.ipv6, o, h);
    }
    if w < 0 {
      return -2;
    }
    Patch(out, off, avail, backptr, [w - beforeUnion], o, h + Payload(x));
    assert (h + Payload(x))[..1] + [w - beforeUnion] + (h + Payload(x))[2..] == AddrBytes(x);
    r := w;
  }

  method ParseAddrInto(input: seq<byte>) returns (r: Parsed<Addr>)
    ensures r == ParseAddr(input)
  {
    var obj := BLANK;
    var ptr, remaining := 0, |input|;
    if remaining < 1 {
      return Truncated;
    }
    obj := obj.(addrType := input[ptr]);
    remaining, ptr := remaining - 1, ptr + 1;
    if remaining < 1 {
      return Truncated;
    }
    obj := obj.(len := input[ptr]);
    remaining, ptr := remaining - 1, ptr + 1;
    if remaining < obj.len {
      return Truncated;
    }
    var remainingAfter := remaining - obj.len;
    remaining := obj.len;
    if obj.addrType == ADDR_TYPE_IPV4 {
      if remaining < 4 {
        return Invalid;
      }
      obj := obj.(ipv4 := Get32(input[ptr..]));
      remaining, ptr := remaining - 4, ptr + 4;
    } else if obj.addrType == ADDR_TYPE_IPV6 {
      if remaining < 16 {
        return Invalid;
      }
      obj := obj.(ipv6 := input[ptr..ptr + 16]);
      remaining, ptr := remaining - 16, ptr + 16;
    } else {
      ptr, remaining := ptr + remaining, 0;
    }
    if remaining != 0 {
      return Invalid;
    }
    remaining := remainingAfter;
    assert ptr + remaining == |input|;
    r := Ok(|input| - remaining, obj);
  }

  method EncodeAll(out: array<byte>, off: nat, avail: nat, written: nat, xs: seq<Addr>,
                   ghost o: seq<byte>, ghost done: seq<byte>) returns (w: int)
    requires off + avail <= out.Length && Holds(out, o, off, done) && written == |done| <= avail
    modifies out
    ensures SameOutside(o, out[..], off, avail)
    ensures w == if TotalLen(AddrLen, xs) <= avail - written then written + TotalLen(AddrLen, xs) else -2
    ensures w >= 0 ==> Holds(out, o, off, done + EncodeMany(AddrBytes, xs))
  {
    hide Holds, SameOutside, AddrBytes, AddrLen, EncodeMany, Written;
    NoAddrs();
    HoldsIs(out, o, off, done);
    HoldsWithin(out, o, off, done, avail);
    w := written;
    ghost var sent := done;
    assert xs[..0] == [] && done + [] == done && xs[0..] == xs;
    for idx := 0 to |xs|
      invariant Holds(out, o, off, sent) && SameOutside(o, out[..], off, avail)
      invariant sent == done + EncodeMany(AddrBytes, xs[..idx]) && w == |sent| <= avail
      invariant TotalLen(AddrLen, xs) == w - written + TotalLen(AddrLen, xs[idx..])
    {
      HoldsIs(out, o, off, sent);
      var r := EncodeAddr(out, off + w, avail - w, xs[idx]);
      assert xs[idx..][1..] == xs[idx + 1..];
      if r < 0 {
        OutsideNested(o, out[..], off, avail, sent);
        return r;
      }
      AddrBytesLength(xs[idx]);
      HoldsNested(out, o, off, sent, AddrBytes(xs[idx]));
      sent := sent + AddrBytes(xs[idx]);
      HoldsWithin(out, o, off, sent, avail);
      ManyAppend(AddrBytes, xs[..idx], xs[idx]);
      assert xs[..idx] + [xs[idx]] == xs[..idx + 1];
      w := w + r;
    }
    assert xs[..|xs|] == xs;
  }

  lemma NoAddrs()
    ensures EncodeMany(AddrBytes, []) == []
  {
  }

  /** Encoding returns the encoded length when it fits and the counts agree, and writes nowhere else. */
  method Encode(out: array<byte>, off: nat, avail: nat, x: Cell) returns (r: int)
    requires off + avail <= out.Length
    modifies out
    ensures r == if !CheckOk(x) then -1 else if avail < EncodedLen(x) then -2 else EncodedLen(x)
    ensures SameOutside(old(out[..]), out[..], off, avail)
    ensures r >= 0 ==> Holds(out, old(out[..]), off, Bytes(x)) && Layout(out[off..off + r], SettledCell(x))
  {
    hide Holds, SameOutside, Be32, AddrBytes, AddrLen, TotalLen, EncodeMany, Layout, SettledCell;
    ghost var o := out[..];
    HoldsNothing(out, off, avail);
    if |x.myAddrs| != x.nMyAddrs {
      return -1;
    }
    ghost var h := Be32(x.timestamp);
    assert [] + h == h;
    var w := Emit(out, off, avail, 0, Be32(x.timestamp), o, []);
    if w < 0 {
      return -2;
    }
    HoldsIs(out, o, off, h);
    r := EncodeAddr(out, off + w, avail - w, x.otherAddr);
    OutsideNested(o, out[..], off, avail, h);
    if r < 0 {
      return r;
    }
    HoldsNested(out, o, off, h, AddrBytes(x.otherAddr));
    AddrBytesLength(x.otherAddr);
    w := w + r;
    w := Emit(out, off, avail, w, [x.nMyAddrs], o, h + AddrBytes(x.otherAddr));
    if w < 0 {
      return -2;
    }
    r := EncodeAll(out, off, avail, w, x.myAddrs, o, h + AddrBytes(x.otherAddr) + [x.nMyAddrs]);
    if r >= 0 {
      HoldsSlice(out, o, off, Bytes(x));
      BytesLength(x);
      BytesLaidOut(x);
    }
  }

  lemma BytesLength(x: Cell)
    ensures |Bytes(x)| == EncodedLen(x)
  {
    hide AddrBytes, AddrLen, EncodeMany, TotalLen;
    AddrBytesLength(x.otherAddr);
    forall a | a in x.myAddrs ensures |AddrBytes(a)| == AddrLen(a) {
      AddrBytesLength(a);
    }
    ManyLength(AddrBytes, AddrLen, x.myAddrs);
  }

  method ParseAll(input: seq<byte>, count: nat) returns (r: Parsed<seq<Addr>>)
    ensures r == ParseMany(ParseAddr, count, input)
  {
    hide ParseAddr, Prepended, ParseMany;
    AddrWithin();
    var ptr: nat, xs: seq<Addr> := 0, [];
    PrependedNothing(ParseMany(ParseAddr, count, input));
    assert input[0..] == input;
    for idx := 0 to count
      invariant ptr <= |input|
      invariant ParseMany(ParseAddr, count, input) ==
                Prepended(ptr, xs, ParseMany(ParseAddr, count - idx, input[ptr..]))
    {
      PrependedStep(ParseAddr, count - idx, input[ptr..], ptr, xs);
      var e := ParseAddrInto(input[ptr..]);
      if e.IsFailure() {
        return e.PropagateFailure();
      }
      assert Drop(input[ptr..], e.n) == input[ptr + e.n..];
      ptr, xs := ptr + e.n, xs + [e.obj];
    }
    PrependedEnd(ParseAddr, input[ptr..], ptr, xs);
    r := Ok(ptr, xs);
  }

  method ParseInto(input: seq<byte>) returns (r: Parsed<Cell>)
    ensures r == Parse(input)
    ensures r.Ok? ==> r.n <= |input| && Layout(input[..r.n], r.obj)
  {
    hide ParseAddr, ParseMany, Within, Layout;
    ParsedLaidOut(input);
    AddrWithin();
    var ptr, remaining := 0, |input|;
    if remaining < 4 {
      return Truncated;
    }
    var timestamp := Get32(input[ptr..]);
    assert input[0..] == input;
    remaining, ptr := remaining - 4, ptr + 4;
    var other := ParseAddrInto(input[ptr..]);
    if other.IsFailure() {
      return other.PropagateFailure();
    }
    WithinAt(ParseAddr, input[ptr..]);
    remaining, ptr := remaining - other.n, ptr + other.n;
    if remaining < 1 {
      return Truncated;
    }
    var nMyAddrs := input[ptr];
    remaining, ptr := remaining - 1, ptr + 1;
    assert Drop(input, 4 + other.n)[1..] == input[ptr..];
    var e := ParseAll(input[ptr..], nMyAddrs);
    if e.IsFailure() {
      return e.PropagateFailure();
    }
    ManyWithin(ParseAddr, nMyAddrs, input[ptr..]);
    remaining, ptr := remaining - e.n, ptr + e.n;
    assert ptr + remaining == |input|;
    r := Ok(|input| - remaining, Cell(timestamp, other.obj, nMyAddrs, e.obj));
  }
}
