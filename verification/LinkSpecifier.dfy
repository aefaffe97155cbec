/** ed25519_cert.c: link_specifier, a tagged union behind a one-byte length that the encoder back-patches. */
module LinkSpecifier {
  import opened Wire
  import opened Buffer

  const LS_IPV4: byte := 0
  const LS_IPV6: byte := 1
  const LS_LEGACY_ID: byte := 2
  const LS_ED25519_ID: byte := 3

  /** The struct, with every arm of the union. */
  datatype Spec = Spec(
    lsType: byte,
    lsLen: byte,
    ipv4Addr: u32,
    ipv4Port: u16,
    ipv6Addr: bytes16,
    ipv6Port: u16,
    legacyId: bytes20,
    ed25519Id: bytes32,
    unrecognized: seq<byte>)

  /** A freshly allocated struct. */
  const BLANK: Spec := Spec(0, 0, 0, 0, Zeros(16), 0, Zeros(20), Zeros(32), [])

  /** The bytes of the active arm. */
  function Payload(x: Spec): seq<byte> {
    if x.lsType == LS_IPV4 then Be32(x.ipv4Addr) + Be16(x.ipv4Port)
    else if x.lsType == LS_IPV6 then x.ipv6Addr + Be16(x.ipv6Port)
    else if x.lsType == LS_LEGACY_ID then x.legacyId
    else if x.lsType == LS_ED25519_ID then x.ed25519Id
    else x.unrecognized
  }

  /** The active arm fits the one-byte length. */
  predicate Fits(x: Spec) {
    |Payload(x)| < 0x100
  }

  function EncodedLen(x: Spec): nat {
    2 + |Payload(x)|
  }

  /** What is written for `x`, whatever its own length field says. */
  function Bytes(x: Spec): seq<byte> {
    [x.lsType, if Fits(x) then |Payload(x)| else 0] + Payload(x)
  }

  /** The same object with inactive arms blank and the length field that is sent. */
  function Settled(x: Spec): Spec {
    var b := BLANK.(lsType := x.lsType, lsLen := if Fits(x) then |Payload(x)| else 0);
    if x.lsType == LS_IPV4 then b.(ipv4Addr := x.ipv4Addr, ipv4Port := x.ipv4Port)
    else if x.lsType == LS_IPV6 then b.(ipv6Addr := x.ipv6Addr, ipv6Port := x.ipv6Port)
    else if x.lsType == LS_LEGACY_ID then b.(legacyId := x.legacyId)
    else if x.lsType == LS_ED25519_ID then b.(ed25519Id := x.ed25519Id)
    else b.(unrecognized := x.unrecognized)
  }

  predicate Good(x: Spec) {
    Fits(x) && x == Settled(x)
  }

  /** The format: type, length, and an arm that fills that length exactly. */
  function Parse(s: seq<byte>): Parsed<Spec> {
    if |s| < 2 || |s| < 2 + s[1] as int then Truncated
    else
      var arm, b := s[2..2 + s[1] as int], BLANK.(lsType := s[0], lsLen := s[1]);
      if s[0] == LS_IPV4 then
        if |arm| == 6 then Ok(8, b.(ipv4Addr := Get32(arm), ipv4Port := Get16(arm[4..]))) else Invalid
      else if s[0] == LS_IPV6 then
        if |arm| == 18 then Ok(20, b.(ipv6Addr := arm[..16], ipv6Port := Get16(arm[16..]))) else Invalid
      else if s[0] == LS_LEGACY_ID then
        if |arm| == 20 then Ok(22, b.(legacyId := arm)) else Invalid
      else if s[0] == LS_ED25519_ID then
        if |arm| == 32 then Ok(34, b.(ed25519Id := arm)) else Invalid
      else Ok(2 + |arm|, b.(unrecognized := arm))
  }

  lemma ParseStable()
    ensures Stable(Parse)
  {
    forall s, t | Parse(s) != Truncated ensures Parse(s + t) == Parse(s) {
      assert (s + t)[2..2 + s[1]] == s[2..2 + s[1] as int];
    }
  }

  lemma ParseCanonical()
    ensures Canonical(Parse, Bytes, Good)
  {
    forall s | Parse(s).Ok? ensures Parse(s).n <= |s| && Good(Parse(s).obj) && Bytes(Parse(s).obj) == s[..Parse(s).n] {
      ParseCanonicalAt(s);
    }
  }

  lemma ParseCanonicalAt(s: seq<byte>)
    requires Parse(s).Ok?
    ensures var r := Parse(s); r.n <= |s| && Good(r.obj) && Bytes(r.obj) == s[..r.n]
  {
    var arm, x := s[2..2 + s[1] as int], Parse(s).obj;
    if s[0] == LS_IPV4 {
      Be32RoundTrip(0, arm);
      Be16RoundTrip(0, arm[4..]);
    } else if s[0] == LS_IPV6 {
      Be16RoundTrip(0, arm[16..]);
    }
    assert Payload(x) == arm;
  }

  lemma ParseRoundTrips()
    ensures RoundTrips(Parse, Bytes, Good)
  {
    forall x, t | Good(x) ensures Parse(Bytes(x) + t) == Ok(|Bytes(x)|, x) {
      ParseUndoesBytes(x, t);
    }
  }

  lemma ParseUndoesBytes(x: Spec, t: seq<byte>)
    requires Fits(x)
    ensures Parse(Bytes(x) + t) == Ok(EncodedLen(x), Settled(x))
  {
    var s, p := Bytes(x) + t, Payload(x);
    assert s[2..2 + s[1] as int] == p;
    if x.lsType == LS_IPV4 {
      Be32RoundTrip(x.ipv4Addr, Be16(x.ipv4Port));
      Be16RoundTrip(x.ipv4Port, []);
      assert p[4..] == Be16(x.ipv4Port) + [];
    } else if x.lsType == LS_IPV6 {
      Be16RoundTrip(x.ipv6Port, []);
      assert p[16..] == Be16(x.ipv6Port) + [] && p[..16] == x.ipv6Addr;
    }
  }

  /** Where everything is in the bytes `s` of `x`, by position. */
  ghost predicate Layout(s: seq<byte>, x: Spec) {
    && |s| >= 2 && s[0] == x.lsType && s[1] == x.lsLen && |s| == 2 + x.lsLen as int
    && if s[0] == 0 then
         && |s| == 8
         && x.ipv4Addr == s[2] as int * 0x100_0000 + s[3] as int * 0x1_0000 + s[4] as int * 0x100 + s[5]
         && x.ipv4Port == s[6] as int * 0x100 + s[7]
       else if s[0] == 1 then
         |s| == 20 && x.ipv6Addr == s[2..18] && x.ipv6Port == s[18] as int * 0x100 + s[19]
       else if s[0] == 2 then |s| == 22 && x.legacyId == s[2..]
       else if s[0] == 3 then |s| == 34 && x.ed25519Id == s[2..]
       else x.unrecognized == s[2..]
  }

  lemma BytesLaidOut(x: Spec)
    requires Fits(x)
    ensures Layout(Bytes(x), Settled(x))
  {
    hide Be32, Be16;
    BigEndian32(x.ipv4Addr, []);
    BigEndian16(x.ipv4Port, []);
    BigEndian16(x.ipv6Port, []);
    var s := Bytes(x);
    assert s[2..] == Payload(x);
    assert x.lsType == LS_IPV6 ==> s[2..18] == x.ipv6Addr;
  }

  lemma ParsedLaidOut(s: seq<byte>)
    ensures var r := Parse(s); r.Ok? ==> r.n <= |s| && Layout(s[..r.n], r.obj)
  {
    hide Parse, Bytes, Layout;
    if Parse(s).Ok? {
      ParseCanonicalAt(s);
      BytesLaidOut(Parse(s).obj);
    }
  }

  lemma ManyGoodLaidOut(xs: seq<Spec>)
    requires AllGood(Good, xs)
    ensures LaidOut(Layout, EncodedLen, EncodeMany(Bytes, xs), xs)
  {
    hide Parse, Bytes, Layout, Settled, Fits, Good, AllGood;
    forall x | x in xs ensures |Bytes(x)| == EncodedLen(x) && Layout(Bytes(x), x) {
      GoodOf(xs, x);
      BytesLaidOut(x);
      BytesLength(x, 0);
    }
    ManyLaidOut(Layout, EncodedLen, Bytes, xs);
  }

  lemma GoodOf(xs: seq<Spec>, x: Spec)
    requires AllGood(Good, xs) && x in xs
    ensures Fits(x) && Settled(x) == x
  {
  }

  lemma ManyBytesLaidOut(xs: seq<Spec>)
    requires forall x | x in xs :: Fits(x)
    ensures LaidOut(Layout, EncodedLen, EncodeMany(Bytes, xs), Mapped(Settled, xs))
  {
    hide Parse, Bytes, Layout, Settled, Fits;
    SettledSameAll(xs);
    ManyGoodLaidOut(Mapped(Settled, xs));
  }

  lemma SettledSame(x: Spec)
    requires Fits(x)
    ensures Good(Settled(x)) && Bytes(Settled(x)) == Bytes(x)
  {
  }

  lemma SettledSameAll(xs: seq<Spec>)
    requires forall x | x in xs :: Fits(x)
    ensures |Mapped(Settled, xs)| == |xs| && AllGood(Good, Mapped(Settled, xs))
    ensures EncodeMany(Bytes, Mapped(Settled, xs)) == EncodeMany(Bytes, xs)
    ensures |EncodeMany(Bytes, xs)| == TotalLen(EncodedLen, xs)
  {
    hide Bytes, Settled, Good;
    forall x | x in xs ensures Bytes(Settled(x)) == Bytes(x) && Good(Settled(x)) && |Bytes(x)| == EncodedLen(x) {
      SettledSame(x);
      BytesLength(x, 0);
    }
    MappedSame(Bytes, Settled, Good, xs);
    ManyLength(Bytes, EncodedLen, xs);
  }

  /** Which inputs get which verdict: a whole arm is there, and it has the length its kind asks for. */
  lemma VerdictsExactly(s: seq<byte>)
    ensures Parse(s) == Truncated <==> |s| < 2 || |s| < 2 + s[1] as int
    ensures Parse(s) == Invalid <==>
              |s| >= 2 && |s| >= 2 + s[1] as int &&
              ((s[0] == 0 && s[1] != 6) || (s[0] == 1 && s[1] != 18) || (s[0] == 2 && s[1] != 20) ||
               (s[0] == 3 && s[1] != 32))
  {
    hide Get16, Get32;
  }

  /** The parser fills one arm, and leaves the others as a fresh struct has them. */
  lemma OtherArmsBlank(s: seq<byte>)
    requires Parse(s).Ok?
    ensures var x := Parse(s).obj;
            && (s[0] != 0 ==> x.ipv4Addr == 0 && x.ipv4Port == 0)
            && (s[0] != 1 ==> AllZero(x.ipv6Addr) && x.ipv6Port == 0)
            && (s[0] != 2 ==> AllZero(x.legacyId)) && (s[0] != 3 ==> AllZero(x.ed25519Id))
            && (s[0] <= 3 ==> x.unrecognized == [])
  {
    hide AllZero, Get16, Get32;
    ZerosAre(16);
    ZerosAre(20);
    ZerosAre(32);
  }

  lemma PrefixIsTruncated(x: Spec, k: nat)
    requires Fits(x) && k < |Bytes(x)|
    ensures Parse(Bytes(x)[..k]) == Truncated
  {
    hide Parse, Bytes, Good, Stable, Canonical, RoundTrips;
    Laws();
    SettledSame(x);
    PrefixTruncated(Parse, Bytes, Good, Settled(x), k);
  }

  lemma Laws()
    ensures Stable(Parse) && Within(Parse) && Canonical(Parse, Bytes, Good) && RoundTrips(Parse, Bytes, Good)
  {
    ParseStable();
    ParseCanonical();
    ParseRoundTrips();
  }

  /** What encoding into `avail` bytes returns: an arm too long is only noticed once it has been written. */
  function EncodeResult(x: Spec, avail: nat): int {
    if avail < EncodedLen(x) then -2 else if Fits(x) then EncodedLen(x) else -1
  }

  method Encode(out: array<byte>, off: nat, avail: nat, x: Spec) returns (r: int)
    requires off + avail <= out.Length
    modifies out
    ensures r == EncodeResult(x, avail)
    ensures SameOutside(old(out[..]), out[..], off, avail)
    ensures r >= 0 ==> Holds(out, old(out[..]), off, Bytes(x)) && Layout(out[off..off + r], Settled(x))
  {
    hide Holds, SameOutside, Payload, Layout, Settled;
    ghost var o := out[..];
    HoldsNothing(out, off, avail);
    assert [] + [x.lsType] == [x.lsType] && [x.lsType] + [x.lsLen] == [x.lsType, x.lsLen];
    var w := Emit(out, off, avail, 0, [x.lsType], o, []);
    if w < 0 {
      return -2;
    }
    var backptr := w;
    w := Emit(out, off, avail, w, [x.lsLen], o, [x.lsType]);
    if w < 0 {
      return -2;
    }
    var beforeUnion := w;
    w := EncodeArm(out, off, avail, w, x, o, [x.lsType, x.lsLen]);
    if w < 0 {
      return -2;
    }
    if w - beforeUnion > 0xFF {
      return -1;
    }
    ghost var whole := [x.lsType, x.lsLen] + Payload(x);
    Patch(out, off, avail, backptr, [w - beforeUnion], o, whole);
    assert whole[..1] + [w - beforeUnion] + whole[2..] == Bytes(x);
    HoldsSlice(out, o, off, Bytes(x));
    BytesLaidOut(x);
    r := w;
  }

  /** The switch over the union's tag. */
  method EncodeArm(out: array<byte>, off: nat, avail: nat, written: nat, x: Spec,
                   ghost o: seq<byte>, ghost done: seq<byte>) returns (w: int)
    requires off + avail <= out.Length && Holds(out, o, off, done) && written == |done| <= avail
    modifies out
    ensures SameOutside(o, out[..], off, avail)
    ensures if |Payload(x)| <= avail - written then w == written + |Payload(x)| && Holds(out, o, off, done + Payload(x))
            else w == -2
  {
    hide Holds, SameOutside;
    if x.lsType == LS_IPV4 {
      w := Emit(out, off, avail, written, Be32(x.ipv4Addr), o, done);
      if w >= 0 {
        w := Emit(out, off, avail, w, Be16(x.ipv4Port), o, done + Be32(x.ipv4Addr));
        assert done + Be32(x.ipv4Addr) + Be16(x.ipv4Port) == done + Payload(x);
      }
    } else if x.lsType == LS_IPV6 {
      w := Emit(out, off, avail, written, x.ipv6Addr, o, done);
      if w >= 0 {
        w := Emit(out, off, avail, w, Be16(x.ipv6Port), o, done + x.ipv6Addr);
        assert done + x.ipv6Addr + Be16(x.ipv6Port) == done + Payload(x);
      }
    } else if x.lsType == LS_LEGACY_ID {
      w := Emit(out, off, avail, written, x.legacyId, o, done);
    } else if x.lsType == LS_ED25519_ID {
      w := Emit(out, off, avail, written, x.ed25519Id, o, done);
    } else {
      w := Emit(out, off, avail, written, x.unrecognized, o, done);
    }
  }

  /** link_specifier_parse_into: a cursor over the input, narrowed to the arm and restored after it. */
  method ParseInto(input: seq<byte>) returns (r: Parsed<Spec>)
    ensures r == Parse(input)
    ensures r.Ok? ==> r.n <= |input| && Layout(input[..r.n], r.obj)
  {
    hide Layout;
    ParsedLaidOut(input);
    var obj := BLANK;
    var ptr, remaining := 0, |input|;
    if remaining < 1 {
      return Truncated;
    }
    obj := obj.(lsType := input[ptr]);
    remaining, ptr := remaining - 1, ptr + 1;
    if remaining < 1 {
      return Truncated;
    }
    obj := obj.(lsLen := input[ptr]);
    remaining, ptr := remaining - 1, ptr + 1;
    if remaining < obj.lsLen {
      return Truncated;
    }
    var remainingAfter := remaining - obj.lsLen;
    remaining := obj.lsLen;
    ghost var arm := input[2..2 + input[1] as int];
    if obj.lsType == LS_IPV4 {
      if remaining < 4 {
        return Invalid;
      }
      obj := obj.(ipv4Addr := Get32(input[ptr..]));
      assert obj.ipv4Addr == Get32(arm);
      remaining, ptr := remaining - 4, ptr + 4;
      if remaining < 2 {
        return Invalid;
      }
      obj := obj.(ipv4Port := Get16(input[ptr..]));
      assert obj.ipv4Port == Get16(arm[4..]);
      remaining, ptr := remaining - 2, ptr + 2;
    } else if obj.lsType == LS_IPV6 {
      if remaining < 16 {
        return Invalid;
      }
      obj := obj.(ipv6Addr := input[ptr..ptr + 16]);
      assert obj.ipv6Addr == arm[..16];
      remaining, ptr := remaining - 16, ptr + 16;
      if remaining < 2 {
        return Invalid;
      }
      obj := obj.(ipv6Port := Get16(input[ptr..]));
      assert obj.ipv6Port == Get16(arm[16..]);
      remaining, ptr := remaining - 2, ptr + 2;
    } else if obj.lsType == LS_LEGACY_ID {
      if remaining < 20 {
        return Invalid;
      }
      obj := obj.(legacyId := input[ptr..ptr + 20]);
      assert |arm| == 20 ==> obj.legacyId == arm;
      remaining, ptr := remaining - 20, ptr + 20;
    } else if obj.lsType == LS_ED25519_ID {
      if remaining < 32 {
        return Invalid;
      }
      obj := obj.(ed25519Id := input[ptr..ptr + 32]);
      assert |arm| == 32 ==> obj.ed25519Id == arm;
      remaining, ptr := remaining - 32, ptr + 32;
    } else {
      obj := obj.(unrecognized := input[ptr..ptr + remaining]);
      assert obj.unrecognized == arm;
      ptr, remaining := ptr + remaining, 0;
    }
    if remaining != 0 {
      return Invalid;
    }
    remaining := remainingAfter;
    assert ptr + remaining == |input|;
    r := Ok(|input| - remaining, obj);
  }

  lemma EncodeResultShape()
    ensures ElementResult(EncodeResult, EncodedLen, Fits)
  {
  }

  lemma EncodeManyNone()
    ensures EncodeMany(Bytes, []) == []
  {
  }

  /** The loops of the enclosing formats' encoders. */
  method EncodeAll(out: array<byte>, off: nat, avail: nat, written: nat, xs: seq<Spec>,
                   ghost o: seq<byte>, ghost done: seq<byte>) returns (w: int)
    requires off + avail <= out.Length && Holds(out, o, off, done) && written == |done| <= avail
    modifies out
    ensures SameOutside(o, out[..], off, avail)
    ensures var m := ManyResult(EncodeResult, xs, avail - written); w == if m < 0 then m else written + m
    ensures w >= 0 ==> Holds(out, o, off, done + EncodeMany(Bytes, xs)) && w == |done + EncodeMany(Bytes, xs)| <= avail
  {
    hide Holds, SameOutside, EncodeResult, Bytes, EncodedLen, EncodeMany, Written, Layout, Settled;
    EncodeManyNone();
    ghost var m := ManyResult(EncodeResult, xs, avail - written);
    HoldsIs(out, o, off, done);
    HoldsWithin(out, o, off, done, avail);
    w := written;
    ghost var sent := done;
    assert xs[..0] == [] && done + [] == done;
    for idx := 0 to |xs|
      invariant Holds(out, o, off, sent) && SameOutside(o, out[..], off, avail)
      invariant sent == done + EncodeMany(Bytes, xs[..idx]) && w == |sent| <= avail
      invariant m == var rest := ManyResult(EncodeResult, xs[idx..], avail - w);
                     if rest < 0 then rest else w - written + rest
    {
      ghost var mid := out[..];
      HoldsIs(out, o, off, sent);
      var r := Encode(out, off + w, avail - w, xs[idx]);
      assert xs[idx..][1..] == xs[idx + 1..];
      if r < 0 {
        OutsideNested(o, out[..], off, avail, sent);
        return r;
      }
      BytesLength(xs[idx], avail - w);
      HoldsNested(out, o, off, sent, Bytes(xs[idx]));
      sent := sent + Bytes(xs[idx]);
      HoldsWithin(out, o, off, sent, avail);
      ManyAppend(Bytes, xs[..idx], xs[idx]);
      assert xs[..idx] + [xs[idx]] == xs[..idx + 1];
      w := w + r;
    }
    assert xs[..|xs|] == xs;
  }

  lemma BytesLength(x: Spec, avail: nat)
    ensures |Bytes(x)| == EncodedLen(x)
    ensures EncodeResult(x, avail) >= 0 ==> EncodeResult(x, avail) == |Bytes(x)| <= avail && Fits(x)
  {
  }

  /** The loops of the enclosing formats' parsers. */
  method ParseAll(input: seq<byte>, count: nat) returns (r: Parsed<seq<Spec>>)
    ensures r == ParseMany(Parse, count, input)
  {
    hide Parse, Prepended, ParseMany, Layout;
    ParseWithin();
    var ptr: nat, xs: seq<Spec> := 0, [];
    PrependedNothing(ParseMany(Parse, count, input));
    assert input[0..] == input;
    for idx := 0 to count
      invariant ptr <= |input|
      invariant ParseMany(Parse, count, input) == Prepended(ptr, xs, ParseMany(Parse, count - idx, input[ptr..]))
    {
      PrependedStep(Parse, count - idx, input[ptr..], ptr, xs);
      var e := ParseInto(input[ptr..]);
      if e.IsFailure() {
        return e.PropagateFailure();
      }
      assert Drop(input[ptr..], e.n) == input[ptr + e.n..];
      ptr, xs := ptr + e.n, xs + [e.obj];
    }
    PrependedEnd(Parse, input[ptr..], ptr, xs);
    r := Ok(ptr, xs);
  }

  lemma ParseWithin()
    ensures Within(Parse)
  {
  }
}
