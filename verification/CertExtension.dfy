/** ed25519_cert.c: ed25519_cert_extension, a tagged union behind a two-byte length that the encoder back-patches. */
module CertExtension {
  import opened Wire
  import opened Buffer

  const CERTEXT_SIGNED_WITH_KEY: byte := 4

  datatype Spec = Spec(extLength: u16, extType: byte, extFlags: byte, signingKey: bytes32, unparsed: seq<byte>)

  const BLANK: Spec := Spec(0, 0, 0, Zeros(32), [])

  /** The bytes of the active arm. */
  function Payload(x: Spec): seq<byte> {
    if x.extType == CERTEXT_SIGNED_WITH_KEY then x.signingKey else x.unparsed
  }

  /** The active arm fits the two-byte length. */
  predicate Fits(x: Spec) {
    |Payload(x)| < 0x1_0000
  }

  function EncodedLen(x: Spec): nat {
    4 + |Payload(x)|
  }

  function SentLength(x: Spec): u16 {
    if Fits(x) then |Payload(x)| else 0
  }

  /** What is written for `x`, whatever its own length field says. */
  function Bytes(x: Spec): seq<byte> {
    Be16(SentLength(x)) + [x.extType, x.extFlags] + Payload(x)
  }

  /** The same object with the inactive arm blank and the length field that is sent. */
  function Settled(x: Spec): Spec {
    var b := BLANK.(extLength := SentLength(x), extType := x.extType, extFlags := x.extFlags);
    if x.extType == CERTEXT_SIGNED_WITH_KEY then b.(signingKey := x.signingKey) else b.(unparsed := x.unparsed)
  }

  predicate Good(x: Spec) {
    Fits(x) && x == Settled(x)
  }

  /** The format: length, type, flags, and an arm that fills that length exactly. */
  function Parse(s: seq<byte>): Parsed<Spec> {
    if |s| < 4 || |s| < 4 + Get16(s) as int then Truncated
    else
      var arm := s[4..4 + Get16(s) as int];
      var b := BLANK.(extLength := Get16(s), extType := s[2], extFlags := s[3]);
      if s[2] == CERTEXT_SIGNED_WITH_KEY then
        if |arm| == 32 then Ok(36, b.(signingKey := arm)) else Invalid
      else Ok(4 + |arm|, b.(unparsed := arm))
  }

  lemma ParseStable()
    ensures Stable(Parse)
  {
    forall s, t | Parse(s) != Truncated ensures Parse(s + t) == Parse(s) {
      var k := 4 + Get16(s) as int;
      assert Get16(s + t) == Get16(s) && (s + t)[2] == s[2] && (s + t)[3] == s[3];
      assert (s + t)[4..k] == s[4..k];
    }
  }

  lemma ParseCanonical()
    ensures Canonical(Parse, Bytes, Good)
  {
    forall s | Parse(s).Ok? ensures Parse(s).n <= |s| && Good(Parse(s).obj) && Bytes(Parse(s).obj) == s[..Parse(s).n] {
      ParseCanonicalAt(s);
    }
  }

  lemma ParseCanonicalAt(s: seq<byte>)
    requires Parse(s).Ok?
    ensures var r := Parse(s); r.n <= |s| && Good(r.obj) && Bytes(r.obj) == s[..r.n]
  {
    var arm, x := s[4..4 + Get16(s) as int], Parse(s).obj;
    Be16RoundTrip(0, s);
    assert Payload(x) == arm;
  }

  lemma ParseRoundTrips()
    ensures RoundTrips(Parse, Bytes, Good)
  {
    forall x, t | Good(x) ensures Parse(Bytes(x) + t) == Ok(|Bytes(x)|, x) {
      ParseUndoesBytes(x, t);
    }
  }

  lemma ParseUndoesBytes(x: Spec, t: seq<byte>)
    requires Fits(x)
    ensures Parse(Bytes(x) + t) == Ok(EncodedLen(x), Settled(x))
  {
    var s, p := Bytes(x) + t, Payload(x);
    Be16RoundTrip(SentLength(x), [x.extType, x.extFlags] + p + t);
    assert s == Be16(SentLength(x)) + ([x.extType, x.extFlags] + p + t);
    assert s[4..4 + |p|] == p;
  }

  /** Where everything is in the bytes `s` of `x`, by position. */
  ghost predicate Layout(s: seq<byte>, x: Spec) {
    && |s| >= 4 && x.extLength == s[0] as int * 0x100 + s[1] && |s| == 4 + x.extLength as int
    && x.extType == s[2] && x.extFlags == s[3]
    && if s[2] == 4 then |s| == 36 && x.signingKey == s[4..] else x.unparsed == s[4..]
  }

  lemma BytesLaidOut(x: Spec)
    requires Fits(x)
    ensures Layout(Bytes(x), Settled(x))
  {
    hide Be16;
    BigEndian16(SentLength(x), []);
    assert Bytes(x)[4..] == Payload(x);
  }

  lemma ParsedLaidOut(s: seq<byte>)
    ensures var r := Parse(s); r.Ok? ==> r.n <= |s| && Layout(s[..r.n], r.obj)
  {
    hide Parse, Bytes, Layout;
    if Parse(s).Ok? {
      ParseCanonicalAt(s);
      BytesLaidOut(Parse(s).obj);
    }
  }

  lemma ManyGoodLaidOut(xs: seq<Spec>)
    requires AllGood(Good, xs)
    ensures LaidOut(Layout, EncodedLen, EncodeMany(Bytes, xs), xs)
  {
    hide Parse, Bytes, Layout, Settled, Fits, Good, AllGood;
    forall x | x in xs ensures |Bytes(x)| == EncodedLen(x) && Layout(Bytes(x), x) {
      GoodOf(xs, x);
      BytesLaidOut(x);
      BytesLength(x, 0);
    }
    ManyLaidOut(Layout, EncodedLen, Bytes, xs);
  }

  lemma GoodOf(xs: seq<Spec>, x: Spec)
    requires AllGood(Good, xs) && x in xs
    ensures Fits(x) && Settled(x) == x
  {
  }

  lemma ManyBytesLaidOut(xs: seq<Spec>)
    requires forall x | x in xs :: Fits(x)
    ensures LaidOut(Layout, EncodedLen, EncodeMany(Bytes, xs), Mapped(Settled, xs))
  {
    hide Parse, Bytes, Layout, Settled, Fits;
    SettledSameAll(xs);
    ManyGoodLaidOut(Mapped(Settled, xs));
  }

  lemma SettledSame(x: Spec)
    requires Fits(x)
    ensures Good(Settled(x)) && Bytes(Settled(x)) == Bytes(x)
  {
  }

  lemma SettledSameAll(xs: seq<Spec>)
    requires forall x | x in xs :: Fits(x)
    ensures |Mapped(Settled, xs)| == |xs| && AllGood(Good, Mapped(Settled, xs))
    ensures EncodeMany(Bytes, Mapped(Settled, xs)) == EncodeMany(Bytes, xs)
    ensures |EncodeMany(Bytes, xs)| == TotalLen(EncodedLen, xs)
  {
    hide Bytes, Settled, Good;
    forall x | x in xs ensures Bytes(Settled(x)) == Bytes(x) && Good(Settled(x)) && |Bytes(x)| == EncodedLen(x) {
      SettledSame(x);
      BytesLength(x, 0);
    }
    MappedSame(Bytes, Settled, Good, xs);
    ManyLength(Bytes, EncodedLen, xs);
  }

  /** Which inputs get which verdict. */
  lemma VerdictsExactly(s: seq<byte>)
    ensures Parse(s) == Truncated <==> |s| < 4 || |s| < 4 + (s[0] as int * 0x100 + s[1])
    ensures Parse(s) == Invalid <==>
              |s| >= 4 && |s| >= 4 + (s[0] as int * 0x100 + s[1]) && s[2] == 4 && s[0] as int * 0x100 + s[1] != 32
  {
    hide Get16;
    if |s| >= 2 {
      BigEndian16(0, s);
    }
  }

  /** The parser fills one arm, and leaves the other as a fresh struct has it. */
  lemma OtherArmBlank(s: seq<byte>)
    requires Parse(s).Ok?
    ensures if s[2] == 4 then Parse(s).obj.unparsed == [] else AllZero(Parse(s).obj.signingKey)
  {
    hide AllZero, Get16;
    ZerosAre(32);
  }

  lemma PrefixIsTruncated(x: Spec, k: nat)
    requires Fits(x) && k < |Bytes(x)|
    ensures Parse(Bytes(x)[..k]) == Truncated
  {
    hide Parse, Bytes, Good, Stable, Canonical, RoundTrips;
    Laws();
    SettledSame(x);
    PrefixTruncated(Parse, Bytes, Good, Settled(x), k);
  }

  lemma Laws()
    ensures Stable(Parse) && Within(Parse) && Canonical(Parse, Bytes, Good) && RoundTrips(Parse, Bytes, Good)
  {
    ParseStable();
    ParseCanonical();
    ParseRoundTrips();
  }

  /** What encoding into `avail` bytes returns: an arm too long is only noticed once it has been written. */
  function EncodeResult(x: Spec, avail: nat): int {
    if avail < EncodedLen(x) then -2 else if Fits(x) then EncodedLen(x) else -1
  }

  method Encode(out: array<byte>, off: nat, avail: nat, x: Spec) returns (r: int)
    requires off + avail <= out.Length
    modifies out
    ensures r == EncodeResult(x, avail)
    ensures SameOutside(old(out[..]), out[..], off, avail)
    ensures r >= 0 ==> Holds(out, old(out[..]), off, Bytes(x)) && Layout(out[off..off + r], Settled(x))
  {
    hide Holds, SameOutside, Be16, Layout, Settled;
    ghost var o := out[..];
    HoldsNothing(out, off, avail);
    ghost var h := Be16(x.extLength) + [x.extType] + [x.extFlags];
    assert [] + Be16(x.extLength) == Be16(x.extLength);
    var backptr := 0;
    var w := Emit(out, off, avail, 0, Be16(x.extLength), o, []);
    if w < 0 {
      return -2;
    }
    w := Emit(out, off, avail, w, [x.extType], o, Be16(x.extLength));
    if w < 0 {
      return -2;
    }
    w := Emit(out, off, avail, w, [x.extFlags], o, Be16(x.extLength) + [x.extType]);
    if w < 0 {
      return -2;
    }
    var beforeUnion := w;
    if x.extType == CERTEXT_SIGNED_WITH_KEY {
      w := Emit(out, off, avail, w, x.signingKey, o, h);
    } else {
      w := Emit(out, off, avail, w, x.unparsed, o, h);
    }
    if w < 0 {
      return -2;
    }
    if w - beforeUnion > 0xFFFF {
      return -1;
    }
    Patch(out, off, avail, backptr, Be16(w - beforeUnion), o, h + Payload(x));
    assert (h + Payload(x))[..0] + Be16(w - beforeUnion) + (h + Payload(x))[2..] == Bytes(x);
    HoldsSlice(out, o, off, Bytes(x));
    BytesLaidOut(x);
    r := w;
  }

  /** ed25519_cert_extension_parse_into: a cursor over the input, narrowed to the arm and restored after it. */
  method ParseInto(input: seq<byte>) returns (r: Parsed<Spec>)
    ensures r == Parse(input)
    ensures r.Ok? ==> r.n <= |input| && Layout(input[..r.n], r.obj)
  {
    hide Layout, Get16;
    ParsedLaidOut(input);
    assert input[0..] == input;
    var obj := BLANK;
    var ptr, remaining := 0, |input|;
    if remaining < 2 {
      return Truncated;
    }
    obj := obj.(extLength := Get16(input[ptr..]));
    remaining, ptr := remaining - 2, ptr + 2;
    if remaining < 1 {
      return Truncated;
    }
    obj := obj.(extType := input[ptr]);
    remaining, ptr := remaining - 1, ptr + 1;
    if remaining < 1 {
      return Truncated;
    }
    obj := obj.(extFlags := input[ptr]);
    remaining, ptr := remaining - 1, ptr + 1;
    if remaining < obj.extLength {
      return Truncated;
    }
    var remainingAfter := remaining - obj.extLength;
    remaining := obj.extLength;
    if obj.extType == CERTEXT_SIGNED_WITH_KEY {
      if remaining < 32 {
        return Invalid;
      }
      obj := obj.(signingKey := input[ptr..ptr + 32]);
      remaining, ptr := remaining - 32, ptr + 32;
    } else {
      obj := obj.(unparsed := input[ptr..ptr + remaining]);
      ptr, remaining := ptr + remaining, 0;
    }
    if remaining != 0 {
      return Invalid;
    }
    remaining := remainingAfter;
    assert ptr + remaining == |input|;
    r := Ok(|input| - remaining, obj);
  }

  lemma EncodeResultShape()
    ensures ElementResult(EncodeResult, EncodedLen, Fits)
  {
  }

  lemma EncodeManyNone()
    ensures EncodeMany(Bytes, []) == []
  {
  }

  /** The loops of the enclosing formats' encoders. */
  method EncodeAll(out: array<byte>, off: nat, avail: nat, written: nat, xs: seq<Spec>,
                   ghost o: seq<byte>, ghost done: seq<byte>) returns (w: int)
    requires off + avail <= out.Length && Holds(out, o, off, done) && written == |done| <= avail
    modifies out
    ensures SameOutside(o, out[..], off, avail)
    ensures var m := ManyResult(EncodeResult, xs, avail - written); w == if m < 0 then m else written + m
    ensures w >= 0 ==> Holds(out, o, off, done + EncodeMany(Bytes, xs)) && w == |done + EncodeMany(Bytes, xs)| <= avail
  {
    hide Holds, SameOutside, EncodeResult, Bytes, EncodedLen, EncodeMany, Written, Layout, Settled;
    EncodeManyNone();
    ghost var m := ManyResult(EncodeResult, xs, avail - written);
    HoldsIs(out, o, off, done);
    HoldsWithin(out, o, off, done, avail);
    w := written;
    ghost var sent := done;
    assert xs[..0] == [] && done + [] == done;
    for idx := 0 to |xs|
      invariant Holds(out, o, off, sent) && SameOutside(o, out[..], off, avail)
      invariant sent == done + EncodeMany(Bytes, xs[..idx]) && w == |sent| <= avail
      invariant m == var rest := ManyResult(EncodeResult, xs[idx..], avail - w);
                     if rest < 0 then rest else w - written + rest
    {
      ghost var mid := out[..];
      HoldsIs(out, o, off, sent);
      var r := Encode(out, off + w, avail - w, xs[idx]);
      assert xs[idx..][1..] == xs[idx + 1..];
      if r < 0 {
        OutsideNested(o, out[..], off, avail, sent);
        return r;
      }
      BytesLength(xs[idx], avail - w);
      HoldsNested(out, o, off, sent, Bytes(xs[idx]));
      sent := sent + Bytes(xs[idx]);
      HoldsWithin(out, o, off, sent, avail);
      ManyAppend(Bytes, xs[..idx], xs[idx]);
      assert xs[..idx] + [xs[idx]] == xs[..idx + 1];
      w := w + r;
    }
    assert xs[..|xs|] == xs;
  }

  lemma BytesLength(x: Spec, avail: nat)
    ensures |Bytes(x)| == EncodedLen(x)
    ensures EncodeResult(x, avail) >= 0 ==> EncodeResult(x, avail) == |Bytes(x)| <= avail && Fits(x)
  {
  }

  /** The loops of the enclosing formats' parsers. */
  method ParseAll(input: seq<byte>, count: nat) returns (r: Parsed<seq<Spec>>)
    ensures r == ParseMany(Parse, count, input)
  {
    hide Parse, Prepended, ParseMany, Layout;
    ParseWithin();
    var ptr: nat, xs: seq<Spec> := 0, [];
    PrependedNothing(ParseMany(Parse, count, input));
    assert input[0..] == input;
    for idx := 0 to count
      invariant ptr <= |input|
      invariant ParseMany(Parse, count, input) == Prepended(ptr, xs, ParseMany(Parse, count - idx, input[ptr..]))
    {
      PrependedStep(Parse, count - idx, input[ptr..], ptr, xs);
      var e := ParseInto(input[ptr..]);
      if e.IsFailure() {
        return e.PropagateFailure();
      }
      assert Drop(input[ptr..], e.n) == input[ptr + e.n..];
      ptr, xs := ptr + e.n, xs + [e.obj];
    }
    PrependedEnd(Parse, input[ptr..], ptr, xs);
    r := Ok(ptr, xs);
  }

  lemma ParseWithin()
    ensures Within(Parse)
  {
  }
}
