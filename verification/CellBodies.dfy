/** ed25519_cert.c: create2_cell_body, link_specifier_list, and extend2_cell_body built from the two. */
module CellBodies {
  import opened Wire
  import opened Buffer
  import LS = LinkSpecifier

  // ---- create2_cell_body: a length that must match, then that many bytes ----

  datatype Create2 = Create2(handshakeType: u16, handshakeLen: u16, handshakeData: seq<byte>)

  predicate Create2Ok(x: Create2) {
    |x.handshakeData| == x.handshakeLen
  }

  function Create2Bytes(x: Create2): seq<byte> {
    Be16(x.handshakeType) + Be16(x.handshakeLen) + x.handshakeData
  }

  function ParseCreate2(s: seq<byte>): Parsed<Create2> {
    if |s| < 4 || |s| < 4 + Get16(s[2..]) as int then Truncated
    else Ok(4 + Get16(s[2..]) as int, Create2(Get16(s), Get16(s[2..]), s[4..4 + Get16(s[2..]) as int]))
  }

  lemma Create2Stable(s: seq<byte>, t: seq<byte>)
    ensures ParseCreate2(s) != Truncated ==> ParseCreate2(s + t) == ParseCreate2(s)
  {
    if ParseCreate2(s) != Truncated {
      var k := 4 + Get16(s[2..]) as int;
      assert (s + t)[4..k] == s[4..k];
    }
  }

  lemma Create2Canonical(s: seq<byte>)
    ensures var r := ParseCreate2(s); r.Ok? ==> r.n <= |s| && Create2Ok(r.obj) && Create2Bytes(r.obj) == s[..r.n]
  {
    Be16RoundTrip(0, s);
    if |s| >= 2 {
      Be16RoundTrip(0, s[2..]);
    }
  }

  lemma Create2RoundTrips(x: Create2, t: seq<byte>)
    requires Create2Ok(x)
    ensures ParseCreate2(Create2Bytes(x) + t) == Ok(|Create2Bytes(x)|, x)
  {
    var s, rest := Create2Bytes(x) + t, x.handshakeData + t;
    Be16RoundTrip(x.handshakeType, Be16(x.handshakeLen) + rest);
    Be16RoundTrip(x.handshakeLen, rest);
    assert s == Be16(x.handshakeType) + (Be16(x.handshakeLen) + rest) && s[2..] == Be16(x.handshakeLen) + rest;
    assert s[4..4 + x.handshakeLen as int] == x.handshakeData;
  }

  /** A create2 body is never invalid. */
  lemma Create2VerdictsExactly(s: seq<byte>)
    ensures ParseCreate2(s) == Truncated <==> |s| < 4 || |s| < 4 + (s[2] as int * 0x100 + s[3])
    ensures ParseCreate2(s) != Invalid
  {
    hide Get16;
    if |s| >= 4 {
      BigEndian16(0, s[2..]);
    }
  }

  /** Where everything is in the bytes `s` of `x`, by position. */
  ghost predicate Create2Layout(s: seq<byte>, x: Create2) {
    && |s| >= 4 && x.handshakeType == s[0] as int * 0x100 + s[1]
    && x.handshakeLen == s[2] as int * 0x100 + s[3] && |s| == 4 + x.handshakeLen as int
    && x.handshakeData == s[4..]
  }

  lemma Create2LaidOut(x: Create2)
    requires Create2Ok(x)
    ensures Create2Layout(Create2Bytes(x), x)
  {
    hide Be16;
    BigEndian16(x.handshakeType, []);
    BigEndian16(x.handshakeLen, []);
  }

  lemma ParsedCreate2LaidOut(s: seq<byte>)
    ensures var r := ParseCreate2(s); r.Ok? ==> r.n <= |s| && Create2Layout(s[..r.n], r.obj)
  {
    hide ParseCreate2, Create2Bytes, Create2Layout;
    Create2Canonical(s);
    if ParseCreate2(s).Ok? {
      Create2LaidOut(ParseCreate2(s).obj);
    }
  }

  function EncodeCreate2Result(x: Create2, avail: nat): int {
    if !Create2Ok(x) then -1 else if avail < 4 + |x.handshakeData| then -2 else 4 + |x.handshakeData|
  }

  method EncodeCreate2(out: array<byte>, off: nat, avail: nat, x: Create2) returns (r: int)
    requires off + avail <= out.Length
    modifies out
    ensures r == EncodeCreate2Result(x, avail)
    ensures SameOutside(old(out[..]), out[..], off, avail)
    ensures r >= 0 ==> Holds(out, old(out[..]), off, Create2Bytes(x)) && Create2Layout(out[off..off + r], x)
  {
    hide Holds, SameOutside, Be16, Create2Layout;
    ghost var o := out[..];
    HoldsNothing(out, off, avail);
    if |x.handshakeData| != x.handshakeLen {
      return -1;
    }
    assert [] + Be16(x.handshakeType) == Be16(x.handshakeType);
    var w := Emit(out, off, avail, 0, Be16(x.handshakeType), o, []);
    if w < 0 {
      return -2;
    }
    w := Emit(out, off, avail, w, Be16(x.handshakeLen), o, Be16(x.handshakeType));
    if w < 0 {
      return -2;
    }
    r := Emit(out, off, avail, w, x.handshakeData, o, Be16(x.handshakeType) + Be16(x.handshakeLen));
    if r >= 0 {
      HoldsSlice(out, o, off, Create2Bytes(x));
      Create2LaidOut(x);
    }
  }

  method ParseCreate2Into(input: seq<byte>) returns (r: Parsed<Create2>)
    ensures r == ParseCreate2(input)
    ensures r.Ok? ==> r.n <= |input| && Create2Layout(input[..r.n], r.obj)
  {
    hide Create2Layout, Get16;
    ParsedCreate2LaidOut(input);
    assert input[0..] == input;
    var ptr, remaining := 0, |input|;
    if remaining < 2 {
      return Truncated;
    }
    var handshakeType := Get16(input[ptr..]);
    remaining, ptr := remaining - 2, ptr + 2;
    if remaining < 2 {
      return Truncated;
    }
    var handshakeLen := Get16(input[ptr..]);
    remaining, ptr := remaining - 2, ptr + 2;
    if remaining < handshakeLen {
      return Truncated;
    }
    var handshakeData := input[ptr..ptr + handshakeLen as int];
    remaining, ptr := remaining - handshakeLen, ptr + handshakeLen;
    assert ptr + remaining == |input|;
    r := Ok(|input| - remaining, Create2(handshakeType, handshakeLen, handshakeData));
  }

  // ---- link_specifier_list: a count, then that many specifiers ----

  datatype SpecList = SpecList(nSpec: byte, spec: seq<LS.Spec>)

  predicate ListOk(x: SpecList) {
    |x.spec| == x.nSpec
  }

  /** Every arm fits its length field, and the specifiers are as a parser leaves them. */
  predicate ListGood(x: SpecList) {
    ListOk(x) && AllGood(LS.Good, x.spec)
  }

  function ListBytes(x: SpecList): seq<byte> {
    CountedBytes(LS.Bytes, x.nSpec, x.spec)
  }

  function ListLen(x: SpecList): nat {
    1 + TotalLen(LS.EncodedLen, x.spec)
  }

  function ParseList(s: seq<byte>): Parsed<SpecList> {
    var (n, xs) :- ParseCounted(LS.Parse, s);
    Ok(n, SpecList(s[0], xs))
  }

  lemma ListStable(s: seq<byte>, t: seq<byte>)
    ensures ParseList(s) != Truncated ==> ParseList(s + t) == ParseList(s)
  {
    hide LS.Parse, LS.Bytes, LS.Good, Stable, Within, Canonical, RoundTrips, ParseCounted;
    LS.Laws();
    CountedStable(LS.Parse, s, t);
  }

  lemma ListCanonical(s: seq<byte>)
    ensures var r := ParseList(s); r.Ok? ==> r.n <= |s| && ListGood(r.obj) && ListBytes(r.obj) == s[..r.n]
  {
    hide LS.Parse, LS.Bytes, LS.Good, Stable, Within, Canonical, RoundTrips, ParseCounted;
    LS.Laws();
    if ParseList(s).Ok? {
      CountedCanonical(LS.Parse, LS.Bytes, LS.Good, s);
    }
  }

  lemma ListRoundTrips(x: SpecList, t: seq<byte>)
    requires ListGood(x)
    ensures ParseList(ListBytes(x) + t) == Ok(|ListBytes(x)|, x)
  {
    hide LS.Parse, LS.Bytes, LS.Good, Stable, Within, Canonical, RoundTrips, ParseCounted;
    LS.Laws();
    CountedRoundTrips(LS.Parse, LS.Bytes, LS.Good, x.nSpec, x.spec, t);
  }

  /** Parsing undoes any encoding there can be: only inactive arms and length fields are settled by it. */
  lemma ListUndoesBytes(x: SpecList, t: seq<byte>)
    requires ListOk(x) && forall e | e in x.spec :: LS.Fits(e)
    ensures |ListBytes(x)| == ListLen(x)
    ensures ParseList(ListBytes(x) + t) == Ok(ListLen(x), x.(spec := Mapped(LS.Settled, x.spec)))
  {
    hide ParseList, EncodeMany, TotalLen, Mapped, AllGood;
    LS.SettledSameAll(x.spec);
    ListRoundTrips(x.(spec := Mapped(LS.Settled, x.spec)), t);
  }

  /** A list fails as the first specifier that fails does. */
  lemma ListVerdictsExactly(s: seq<byte>)
    ensures ParseList(s) == Truncated <==> |s| < 1 || ParseMany(LS.Parse, s[0], s[1..]) == Truncated
    ensures ParseList(s) == Invalid <==>
              |s| >= 1 && exists k: nat ::
                k < s[0] && ParseMany(LS.Parse, k, s[1..]).Ok? &&
                LS.Parse(Drop(s[1..], ParseMany(LS.Parse, k, s[1..]).n)) == Invalid
  {
    hide LS.Parse, ParseMany, Drop;
    if ParseList(s) == Invalid {
      var k := ManyFirstFailure(LS.Parse, s[0], s[1..]);
      assert LS.Parse(Drop(s[1..], ParseMany(LS.Parse, k, s[1..]).n)) == Invalid;
    }
    if k: nat :| |s| >= 1 && k < s[0] && ParseMany(LS.Parse, k, s[1..]).Ok? &&
                 LS.Parse(Drop(s[1..], ParseMany(LS.Parse, k, s[1..]).n)) == Invalid {
      ManyFailsAt(LS.Parse, s[0], s[1..], k);
    }
  }

  lemma ListPrefixIsTruncated(x: SpecList, k: nat)
    requires ListOk(x) && k < ListLen(x) && forall e | e in x.spec :: LS.Fits(e)
    ensures |ListBytes(x)| == ListLen(x) && ParseList(ListBytes(x)[..k]) == Truncated
  {
    hide ParseList, ListBytes, ListGood;
    ListUndoesBytes(x, []);
    var p, q := ListBytes(x)[..k], ListBytes(x)[k..];
    assert p + q == ListBytes(x) == ListBytes(x) + [];
    ListStable(p, q);
    ListCanonical(p);
  }

  /** Where everything is in the bytes `s` of `x`, by position. */
  ghost predicate ListLayout(s: seq<byte>, x: SpecList) {
    |s| >= 1 && x.nSpec == s[0] && |x.spec| == s[0] && LaidOut(LS.Layout, LS.EncodedLen, s[1..], x.spec)
  }

  lemma ListLaidOut(x: SpecList)
    requires ListOk(x) && forall e | e in x.spec :: LS.Fits(e)
    ensures ListLayout(ListBytes(x), x.(spec := Mapped(LS.Settled, x.spec)))
  {
    hide LaidOut, EncodeMany, LS.Bytes, LS.Settled, LS.Layout, Mapped;
    LS.SettledSameAll(x.spec);
    LS.ManyBytesLaidOut(x.spec);
  }

  lemma ParsedListLaidOut(s: seq<byte>)
    ensures var r := ParseList(s); r.Ok? ==> r.n <= |s| && ListLayout(s[..r.n], r.obj)
  {
    hide ParseList, LaidOut, EncodeMany, LS.Bytes, LS.Good, LS.Layout, AllGood;
    ListCanonical(s);
    if ParseList(s).Ok? {
      LS.ManyGoodLaidOut(ParseList(s).obj.spec);
    }
  }

  function EncodeListResult(x: SpecList, avail: nat): int {
    if !ListOk(x) then -1
    else if avail < 1 then -2
    else
      var m := ManyResult(LS.EncodeResult, x.spec, avail - 1);
      if m < 0 then m else 1 + m
  }

  /** Encoding succeeds exactly when every specifier's arm fits its length field and the buffer is long enough. */
  lemma EncodeListExactly(x: SpecList, avail: nat)
    requires ListOk(x)
    ensures EncodeListResult(x, avail) >= 0 <==> ListLen(x) <= avail && forall e | e in x.spec :: LS.Fits(e)
    ensures (forall e | e in x.spec :: LS.Fits(e)) ==>
              EncodeListResult(x, avail) == if ListLen(x) <= avail then ListLen(x) else -2
  {
    hide LS.EncodeResult, LS.EncodedLen, LS.Fits;
    LS.EncodeResultShape();
    if avail >= 1 {
      ManyResultExactly(LS.EncodeResult, LS.EncodedLen, LS.Fits, x.spec, avail - 1);
    }
  }

  method EncodeList(out: array<byte>, off: nat, avail: nat, x: SpecList) returns (r: int)
    requires off + avail <= out.Length
    modifies out
    ensures r == EncodeListResult(x, avail)
    ensures SameOutside(old(out[..]), out[..], off, avail)
    ensures r >= 0 ==> Holds(out, old(out[..]), off, ListBytes(x)) &&
                       r <= avail && ListLayout(out[off..off + r], x.(spec := Mapped(LS.Settled, x.spec)))
  {
    hide Holds, SameOutside, ListLayout, LS.EncodeResult, LS.Fits, Mapped, EncodeMany;
    ListSucceeds(x, avail);
    ghost var o := out[..];
    HoldsNothing(out, off, avail);
    if |x.spec| != x.nSpec {
      return -1;
    }
    assert [] + [x.nSpec] == [x.nSpec];
    var w := Emit(out, off, avail, 0, [x.nSpec], o, []);
    if w < 0 {
      return -2;
    }
    r := LS.EncodeAll(out, off, avail, w, x.spec, o, [x.nSpec]);
    if r >= 0 {
      HoldsSlice(out, o, off, ListBytes(x));
      ListLaidOut(x);
    }
  }

  lemma ListSucceeds(x: SpecList, avail: nat)
    ensures EncodeListResult(x, avail) >= 0 ==> ListOk(x) && forall e | e in x.spec :: LS.Fits(e)
  {
    hide LS.EncodeResult, LS.Fits;
    if ListOk(x) {
      EncodeListExactly(x, avail);
    }
  }

  method ParseListInto(input: seq<byte>) returns (r: Parsed<SpecList>)
    ensures r == ParseList(input)
    ensures r.Ok? ==> r.n <= |input| && ListLayout(input[..r.n], r.obj)
  {
    hide ListLayout, ParseMany;
    ParsedListLaidOut(input);
    if |input| < 1 {
      return Truncated;
    }
    var nSpec := input[0];
    var e := LS.ParseAll(input[1..], nSpec);
    if e.IsFailure() {
      return e.PropagateFailure();
    }
    r := Ok(1 + e.n, SpecList(nSpec, e.obj));
  }

  // ---- extend2_cell_body: a link_specifier_list, then a create2_cell_body ----

  datatype Extend2 = Extend2(nSpec: byte, ls: seq<LS.Spec>, create2: Create2)

  predicate Extend2Ok(x: Extend2) {
    |x.ls| == x.nSpec && Create2Ok(x.create2)
  }

  predicate Extend2Good(x: Extend2) {
    ListGood(SpecList(x.nSpec, x.ls)) && Create2Ok(x.create2)
  }

  function Extend2Bytes(x: Extend2): seq<byte> {
    ListBytes(SpecList(x.nSpec, x.ls)) + Create2Bytes(x.create2)
  }

  function Extend2Len(x: Extend2): nat {
    ListLen(SpecList(x.nSpec, x.ls)) + 4 + |x.create2.handshakeData|
  }

  function ParseExtend2(s: seq<byte>): Parsed<Extend2> {
    var (n, list) :- ParseList(s);
    var (m, create2) :- ParseCreate2(Drop(s, n));
    Ok(n + m, Extend2(list.nSpec, list.spec, create2))
  }

  lemma Extend2Stable(s: seq<byte>, t: seq<byte>)
    ensures ParseExtend2(s) != Truncated ==> ParseExtend2(s + t) == ParseExtend2(s)
  {
    hide ParseList, ParseCreate2, ListGood, ListBytes;
    ListStable(s, t);
    ListCanonical(s);
    if ParseList(s).Ok? {
      var n := ParseList(s).n;
      assert Drop(s + t, n) == Drop(s, n) + t;
      Create2Stable(Drop(s, n), t);
    }
  }

  lemma Extend2Canonical(s: seq<byte>)
    ensures var r := ParseExtend2(s); r.Ok? ==> r.n <= |s| && Extend2Good(r.obj) && Extend2Bytes(r.obj) == s[..r.n]
  {
    hide ParseList, ParseCreate2, ListGood, ListBytes, Create2Ok, Create2Bytes;
    ListCanonical(s);
    var r := ParseExtend2(s);
    if r.Ok? {
      var n := ParseList(s).n;
      Create2Canonical(Drop(s, n));
      assert ParseList(s).obj == SpecList(r.obj.nSpec, r.obj.ls);
      assert s[..r.n] == s[..n] + s[n..][..r.n - n];
    }
  }

  lemma Extend2RoundTrips(x: Extend2, t: seq<byte>)
    requires Extend2Good(x)
    ensures ParseExtend2(Extend2Bytes(x) + t) == Ok(|Extend2Bytes(x)|, x)
  {
    hide ParseList, ParseCreate2, ListGood, ListBytes, Create2Ok, Create2Bytes;
    var a, b := ListBytes(SpecList(x.nSpec, x.ls)), Create2Bytes(x.create2);
    ListRoundTrips(SpecList(x.nSpec, x.ls), b + t);
    Create2RoundTrips(x.create2, t);
    assert a + b + t == a + (b + t) && Drop(a + (b + t), |a|) == b + t;
  }

  /** Parsing undoes any encoding there can be: only inactive arms and length fields are settled by it. */
  lemma Extend2UndoesBytes(x: Extend2, t: seq<byte>)
    requires Extend2Ok(x) && forall e | e in x.ls :: LS.Fits(e)
    ensures |Extend2Bytes(x)| == Extend2Len(x)
    ensures ParseExtend2(Extend2Bytes(x) + t) == Ok(Extend2Len(x), x.(ls := Mapped(LS.Settled, x.ls)))
  {
    hide ParseExtend2, EncodeMany, TotalLen, Mapped, AllGood;
    LS.SettledSameAll(x.ls);
    Extend2RoundTrips(x.(ls := Mapped(LS.Settled, x.ls)), t);
  }

  /** Only the specifiers can make the body invalid. */
  lemma Extend2InvalidExactly(s: seq<byte>)
    ensures ParseExtend2(s) == Invalid <==> ParseList(s) == Invalid
  {
    hide ParseList, ParseCreate2, Drop;
    if ParseList(s).Ok? {
      Create2VerdictsExactly(Drop(s, ParseList(s).n));
    }
  }

  lemma Extend2PrefixIsTruncated(x: Extend2, k: nat)
    requires Extend2Ok(x) && k < Extend2Len(x) && forall e | e in x.ls :: LS.Fits(e)
    ensures |Extend2Bytes(x)| == Extend2Len(x) && ParseExtend2(Extend2Bytes(x)[..k]) == Truncated
  {
    hide ParseExtend2, Extend2Bytes, Extend2Good;
    Extend2UndoesBytes(x, []);
    var p, q := Extend2Bytes(x)[..k], Extend2Bytes(x)[k..];
    assert p + q == Extend2Bytes(x) == Extend2Bytes(x) + [];
    Extend2Stable(p, q);
    Extend2Canonical(p);
  }

  /** The specifiers from the front, the handshake at the back. */
  ghost predicate Extend2Layout(s: seq<byte>, x: Extend2) {
    var n := |s| - 4 - |x.create2.handshakeData|;
    n >= 0 && ListLayout(s[..n], SpecList(x.nSpec, x.ls)) && Create2Layout(s[n..], x.create2)
  }

  lemma Extend2LaidOut(x: Extend2)
    requires Extend2Ok(x) && forall e | e in x.ls :: LS.Fits(e)
    ensures Extend2Layout(Extend2Bytes(x), x.(ls := Mapped(LS.Settled, x.ls)))
  {
    hide ListLayout, ListBytes, Create2Layout, Mapped;
    ListLaidOut(SpecList(x.nSpec, x.ls));
    Create2LaidOut(x.create2);
    var l, c := ListBytes(SpecList(x.nSpec, x.ls)), Create2Bytes(x.create2);
    assert (l + c)[..|l|] == l && (l + c)[|l|..] == c;
  }

  lemma ParsedExtend2LaidOut(s: seq<byte>)
    ensures var r := ParseExtend2(s); r.Ok? ==> r.n <= |s| && Extend2Layout(s[..r.n], r.obj)
  {
    hide ParseList, ParseCreate2, ListLayout, Create2Layout, ListBytes, ListGood, Create2Ok, Create2Bytes;
    var r := ParseExtend2(s);
    ListCanonical(s);
    if r.Ok? {
      var n := ParseList(s).n;
      ParsedListLaidOut(s);
      ParsedCreate2LaidOut(Drop(s, n));
      Create2LenOf(Drop(s, n)[..r.n - n], r.obj.create2);
      assert s[..r.n][..n] == s[..n] && s[..r.n][n..] == Drop(s, n)[..r.n - n];
    }
  }

  lemma Create2LenOf(s: seq<byte>, x: Create2)
    requires Create2Layout(s, x)
    ensures |s| == 4 + |x.handshakeData|
  {
  }

  function EncodeExtend2Result(x: Extend2, avail: nat): int {
    if !Extend2Ok(x) then -1
    else
      var l := EncodeListResult(SpecList(x.nSpec, x.ls), avail);
      if l < 0 || l > avail then l
      else
        var c := EncodeCreate2Result(x.create2, avail - l);
        if c < 0 then c else l + c
  }

  method EncodeExtend2(out: array<byte>, off: nat, avail: nat, x: Extend2) returns (r: int)
    requires off + avail <= out.Length
    modifies out
    ensures r == EncodeExtend2Result(x, avail)
    ensures SameOutside(old(out[..]), out[..], off, avail)
    ensures r >= 0 ==> Holds(out, old(out[..]), off, Extend2Bytes(x)) &&
                       r <= avail && Extend2Layout(out[off..off + r], x.(ls := Mapped(LS.Settled, x.ls)))
  {
    hide Holds, SameOutside, Create2Bytes, EncodeCreate2Result, ManyResult, EncodeMany, Extend2Layout, Create2Layout,
         LS.Fits, Mapped, TotalLen, Extend2Len;
    Extend2Succeeds(x, avail);
    ghost var o := out[..];
    HoldsNothing(out, off, avail);
    if |x.ls| != x.nSpec || |x.create2.handshakeData| != x.create2.handshakeLen {
      return -1;
    }
    assert [] + [x.nSpec] == [x.nSpec];
    var w := Emit(out, off, avail, 0, [x.nSpec], o, []);
    if w < 0 {
      return -2;
    }
    w := LS.EncodeAll(out, off, avail, w, x.ls, o, [x.nSpec]);
    if w < 0 {
      return w;
    }
    ghost var done := [x.nSpec] + EncodeMany(LS.Bytes, x.ls);
    HoldsIs(out, o, off, done);
    r := EncodeCreate2(out, off + w, avail - w, x.create2);
    OutsideNested(o, out[..], off, avail, done);
    if r >= 0 {
      HoldsNested(out, o, off, done, Create2Bytes(x.create2));
      r := w + r;
      Extend2Readable(out, o, off, x);
    }
  }

  lemma Extend2Readable(out: array<byte>, o: seq<byte>, off: nat, x: Extend2)
    requires Extend2Ok(x) && (forall e | e in x.ls :: LS.Fits(e)) && Holds(out, o, off, Extend2Bytes(x))
    ensures var n := Extend2Len(x);
            off + n <= out.Length && Extend2Layout(out[off..off + n], x.(ls := Mapped(LS.Settled, x.ls)))
  {
    hide Holds, Extend2Bytes, Extend2Layout, LS.Fits, Mapped;
    HoldsSlice(out, o, off, Extend2Bytes(x));
    Extend2UndoesBytes(x, []);
    Extend2LaidOut(x);
  }

  lemma Extend2Succeeds(x: Extend2, avail: nat)
    ensures EncodeExtend2Result(x, avail) >= 0 ==>
              Extend2Ok(x) && (forall e | e in x.ls :: LS.Fits(e)) &&
              EncodeExtend2Result(x, avail) == Extend2Len(x) <= avail
  {
    hide LS.EncodeResult, LS.Fits, ManyResult;
    if Extend2Ok(x) {
      EncodeExtend2Exactly(x, avail);
    }
  }

  method ParseExtend2Into(input: seq<byte>) returns (r: Parsed<Extend2>)
    ensures r == ParseExtend2(input)
    ensures r.Ok? ==> r.n <= |input| && Extend2Layout(input[..r.n], r.obj)
  {
    hide ParseCreate2, ParseMany, Extend2Layout, Create2Layout;
    ParsedExtend2LaidOut(input);
    ListCanonical(input);
    if |input| < 1 {
      return Truncated;
    }
    var nSpec := input[0];
    var ptr, remaining := 1, |input| - 1;
    var e := LS.ParseAll(input[ptr..], nSpec);
    if e.IsFailure() {
      return e.PropagateFailure();
    }
    ptr, remaining := ptr + e.n, remaining - e.n;
    var c := ParseCreate2Into(input[ptr..]);
    if c.IsFailure() {
      return c.PropagateFailure();
    }
    Create2Canonical(input[ptr..]);
    ptr, remaining := ptr + c.n, remaining - c.n;
    assert ptr + remaining == |input|;
    r := Ok(|input| - remaining, Extend2(nSpec, e.obj, c.obj));
  }

  /** No encoding is longer than 255 specifiers of 257 bytes around the largest handshake. */
  lemma Extend2LenAtMost(x: Extend2)
    requires Extend2Ok(x) && forall e | e in x.ls :: LS.Fits(e)
    ensures Extend2Len(x) <= 131075
  {
    TotalLenAtMost(LS.EncodedLen, x.ls, 257);
  }

  /** Encoding succeeds exactly when every specifier's arm fits its length field and the buffer is long enough. */
  lemma EncodeExtend2Exactly(x: Extend2, avail: nat)
    requires Extend2Ok(x)
    ensures EncodeExtend2Result(x, avail) >= 0 <==> Extend2Len(x) <= avail && forall e | e in x.ls :: LS.Fits(e)
    ensures (forall e | e in x.ls :: LS.Fits(e)) ==>
              EncodeExtend2Result(x, avail) == if Extend2Len(x) <= avail then Extend2Len(x) else -2
  {
    hide EncodeListResult, ListLen, LS.Fits;
    EncodeListExactly(SpecList(x.nSpec, x.ls), avail);
  }
}
