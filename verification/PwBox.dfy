/**
 pwbox.c: data of unmarked length between a header and a 32-byte tail, so that the format is delimited by
 its input alone.
 */
module PwBox {
  import opened Wire
  import opened Buffer

  const PWBOX0_CONST0: u32 := 1414484546
  const PWBOX0_CONST1: u32 := 1331179568

  datatype Box = Box(
    fixedbytes0: u32,
    fixedbytes1: u32,
    headerLen: byte,
    skeyHeader: seq<byte>,
    iv: bytes16,
    data: seq<byte>,
    hmac: bytes32)

  predicate CheckOk(x: Box) {
    x.fixedbytes0 == PWBOX0_CONST0 && x.fixedbytes1 == PWBOX0_CONST1 && |x.skeyHeader| == x.headerLen
  }

  function EncodedLen(x: Box): nat {
    57 + |x.skeyHeader| + |x.data|
  }

  function Header(x: Box): seq<byte> {
    Be32(x.fixedbytes0) + Be32(x.fixedbytes1) + [x.headerLen] + x.skeyHeader + x.iv
  }

  function Bytes(x: Box): seq<byte> {
    Header(x) + x.data + x.hmac
  }

  /** The format; each constant is judged as soon as it is there. */
  function Parse(s: seq<byte>): Parsed<Box> {
    if |s| < 4 then Truncated
    else if Get32(s) != PWBOX0_CONST0 then Invalid
    else if |s| < 8 then Truncated
    else if Get32(s[4..]) != PWBOX0_CONST1 then Invalid
    else if |s| < 9 || |s| < 57 + s[8] as int then Truncated
    else
      var h, end := 9 + s[8] as int, |s| - 32;
      Ok(|s|, Box(PWBOX0_CONST0, PWBOX0_CONST1, s[8], s[9..h], s[h..h + 16], s[h + 16..end], s[end..]))
  }

  /** An accepted input is consumed whole, is what its object encodes to, and fixes how long the data is. */
  lemma ParseCanonical(s: seq<byte>)
    requires Parse(s).Ok?
    ensures var r := Parse(s); r.n == |s| && CheckOk(r.obj) && Bytes(r.obj) == s
    ensures var r := Parse(s); |r.obj.data| == |s| - 57 - r.obj.headerLen
  {
    hide Be32, Get32;
    Be32RoundTrip(0, s);
    Be32RoundTrip(0, s[4..]);
    var h, end := 9 + s[8] as int, |s| - 32;
    assert s[..4] + s[4..][..4] + [s[8]] + s[9..h] + s[h..h + 16] == s[..h + 16];
    assert s[..h + 16] + s[h + 16..end] + s[end..] == s;
  }

  /** Parsing what follows the tail as well takes it for more data: only the last 32 bytes of the input are the tail. */
  lemma ParseTakesAll(x: Box, t: seq<byte>)
    requires CheckOk(x)
    ensures var body := x.data + x.hmac + t;
            Parse(Bytes(x) + t) ==
            Ok(EncodedLen(x) + |t|, x.(data := body[..|body| - 32], hmac := body[|body| - 32..]))
  {
    hide Be32, Get32, Bytes;
    BytesStart(x, t);
    BytesEnd(x, t);
  }

  lemma BytesStart(x: Box, t: seq<byte>)
    requires CheckOk(x)
    ensures var s := Bytes(x) + t;
            |s| == EncodedLen(x) + |t| && Get32(s) == PWBOX0_CONST0 && Get32(s[4..]) == PWBOX0_CONST1 &&
            s[8] == x.headerLen
  {
    hide Be32, Get32;
    var s := Bytes(x) + t;
    var u := [x.headerLen] + x.skeyHeader + x.iv + x.data + x.hmac + t;
    assert s == Be32(x.fixedbytes0) + (Be32(x.fixedbytes1) + u) && s[4..] == Be32(x.fixedbytes1) + u;
    Be32RoundTrip(x.fixedbytes0, Be32(x.fixedbytes1) + u);
    Be32RoundTrip(x.fixedbytes1, u);
  }

  lemma BytesEnd(x: Box, t: seq<byte>)
    ensures var s, body, h := Bytes(x) + t, x.data + x.hmac + t, 9 + |x.skeyHeader|;
            |s| == h + 16 + |body| && s[9..h] == x.skeyHeader && s[h..h + 16] == x.iv &&
            s[h + 16..|s| - 32] == body[..|body| - 32] && s[|s| - 32..] == body[|body| - 32..]
  {
    hide Be32;
    var start, body := Be32(x.fixedbytes0) + Be32(x.fixedbytes1) + [x.headerLen], x.data + x.hmac + t;
    assert Bytes(x) + t == start + x.skeyHeader + x.iv + body;
    Pieces(start, x.skeyHeader, x.iv, body, 32);
  }

  lemma Pieces(a: seq<byte>, b: seq<byte>, c: seq<byte>, d: seq<byte>, tail: nat)
    requires tail <= |d|
    ensures var s, h := a + b + c + d, |a| + |b|;
            s[|a|..h] == b && s[h..h + |c|] == c &&
            s[h + |c|..|s| - tail] == d[..|d| - tail] && s[|s| - tail..] == d[|d| - tail..]
  {
  }

  /** Parsing exactly the encoding recovers every field. */
  lemma ParseUndoesBytes(x: Box)
    requires CheckOk(x)
    ensures |Bytes(x)| == EncodedLen(x) && Parse(Bytes(x)) == Ok(EncodedLen(x), x)
  {
    ParseTakesAll(x, []);
    assert Bytes(x) + [] == Bytes(x);
    assert x.data + x.hmac + [] == x.data + x.hmac;
  }

  /** A prefix of an encoding is reported as truncated exactly when it could not hold the header and a tail. */
  lemma PrefixIsTruncated(x: Box, k: nat)
    requires CheckOk(x) && k <= EncodedLen(x)
    ensures |Bytes(x)| == EncodedLen(x) && (Parse(Bytes(x)[..k]) == Truncated <==> k < 57 + |x.skeyHeader|)
  {
    hide Get32, Bytes;
    BytesStart(x, []);
    var s := Bytes(x);
    assert s + [] == s;
    var p := s[..k];
    if k >= 4 {
      assert p + s[k..] == s;
      Get32Prefix(p, s[k..]);
    }
    if k >= 8 {
      assert p[4..] + s[k..] == s[4..];
      Get32Prefix(p[4..], s[k..]);
    }
  }

  /** Invalid is a wrong constant, as soon as its four bytes are there: 54 4f 52 42, then 4f 58 30 30. */
  lemma InvalidExactly(s: seq<byte>)
    ensures Parse(s) == Invalid <==>
              || (|s| >= 4 && s[..4] != [0x54, 0x4f, 0x52, 0x42])
              || (|s| >= 8 && s[..4] == [0x54, 0x4f, 0x52, 0x42] && s[4..8] != [0x4f, 0x58, 0x30, 0x30])
  {
    hide Get32;
    if |s| >= 4 {
      BigEndian32(0, s);
    }
    if |s| >= 8 {
      BigEndian32(0, s[4..]);
    }
  }

  /** Where everything is in the bytes `s` of `x`, by position. */
  ghost predicate Layout(s: seq<byte>, x: Box) {
    && |s| >= 9 && |s| >= 57 + s[8] as int
    && x.fixedbytes0 == 1414484546 == s[0] as int * 0x100_0000 + s[1] as int * 0x1_0000 + s[2] as int * 0x100 + s[3]
    && x.fixedbytes1 == 1331179568 == s[4] as int * 0x100_0000 + s[5] as int * 0x1_0000 + s[6] as int * 0x100 + s[7]
    && x.headerLen == s[8]
    && var h, end := 9 + s[8] as int, |s| - 32;
       x.skeyHeader == s[9..h] && x.iv == s[h..h + 16] && x.data == s[h + 16..end] && x.hmac == s[end..]
  }

  lemma ParsedLaidOut(s: seq<byte>)
    ensures Parse(s).Ok? ==> Parse(s).n == |s| && Layout(s, Parse(s).obj)
  {
    hide Get32;
    if |s| >= 8 {
      BigEndian32(0, s);
      BigEndian32(0, s[4..]);
    }
  }

  lemma BytesLaidOut(x: Box)
    requires CheckOk(x)
    ensures |Bytes(x)| == EncodedLen(x) && Layout(Bytes(x), x)
  {
    hide Parse, Layout, Bytes;
    ParseUndoesBytes(x);
    ParsedLaidOut(Bytes(x));
  }

  method EncodeHeader(out: array<byte>, off: nat, avail: nat, x: Box, ghost o: seq<byte>) returns (w: int)
    requires off + avail <= out.Length && out[..] == o && CheckOk(x)
    modifies out
    ensures SameOutside(o, out[..], off, avail)
    ensures if avail < |Header(x)| then w == -2 else w == |Header(x)| && Holds(out, o, off, Header(x))
  {
    hide Holds, SameOutside, Be32;
    HoldsNothing(out, off, avail);
    ghost var h0 := Be32(x.fixedbytes0);
    ghost var h1 := h0 + Be32(x.fixedbytes1);
    ghost var h2 := h1 + [x.headerLen];
    assert [] + h0 == h0;
    w := Emit(out, off, avail, 0, Be32(x.fixedbytes0), o, []);
    if w < 0 {
      return;
    }
    w := Emit(out, off, avail, w, Be32(x.fixedbytes1), o, h0);
    if w < 0 {
      return;
    }
    w := Emit(out, off, avail, w, [x.headerLen], o, h1);
    if w < 0 {
      return;
    }
    w := Emit(out, off, avail, w, x.skeyHeader, o, h2);
    if w < 0 {
      return;
    }
    w := Emit(out, off, avail, w, x.iv, o, h2 + x.skeyHeader);
  }

  /**
   The check fails only where it is made first: once the data is written, `avail` shrinks to what the
   tail needs, and neither the room left for the tail nor the total enforced after it can be wrong.
   */
  method Encode(out: array<byte>, off: nat, availGiven: nat, x: Box) returns (r: int)
    requires off + availGiven <= out.Length
    modifies out
    ensures r == if !CheckOk(x) then -1 else if availGiven < EncodedLen(x) then -2 else EncodedLen(x)
    ensures SameOutside(old(out[..]), out[..], off, availGiven)
    ensures r >= 0 ==> Holds(out, old(out[..]), off, Bytes(x)) && Layout(out[off..off + r], x)
  {
    hide Holds, SameOutside, Header, Layout;
    ghost var o := out[..];
    HoldsNothing(out, off, availGiven);
    HeaderLength(x);
    var avail := availGiven;
    var enforceAvail := false;
    if !(x.fixedbytes0 == PWBOX0_CONST0) || !(x.fixedbytes1 == PWBOX0_CONST1) || |x.skeyHeader| != x.headerLen {
      return -1;
    }
    var w := EncodeHeader(out, off, avail, x, o);
    if w < 0 {
      return -2;
    }
    w := Emit(out, off, avail, w, x.data, o, Header(x));
    if w < 0 || avail - w < 32 {
      return -2;
    }
    avail := w + 32;
    enforceAvail := true;
    if avail - w < 32 {
      assert false;
    }
    w := Emit(out, off, avail, w, x.hmac, o, Header(x) + x.data);
    HoldsWithin(out, o, off, Bytes(x), availGiven);
    if enforceAvail && avail != w {
      assert false;
    }
    HoldsSlice(out, o, off, Bytes(x));
    BytesLaidOut(x);
    r := w;
  }

  lemma HeaderLength(x: Box)
    ensures |Header(x)| == 25 + |x.skeyHeader|
  {
  }

  method ParseInto(input: seq<byte>) returns (r: Parsed<Box>)
    ensures r == Parse(input)
    ensures r.Ok? ==> r.n == |input| && Layout(input, r.obj)
  {
    hide Get32, Layout;
    ParsedLaidOut(input);
    var ptr, remaining := 0, |input|;
    if remaining < 4 {
      return Truncated;
    }
    var fixedbytes0 := Get32(input[ptr..]);
    assert input[0..] == input;
    remaining, ptr := remaining - 4, ptr + 4;
    if !(fixedbytes0 == PWBOX0_CONST0) {
      return Invalid;
    }
    if remaining < 4 {
      return Truncated;
    }
    var fixedbytes1 := Get32(input[ptr..]);
    remaining, ptr := remaining - 4, ptr + 4;
    if !(fixedbytes1 == PWBOX0_CONST1) {
      return Invalid;
    }
    if remaining < 1 {
      return Truncated;
    }
    var headerLen := input[ptr];
    remaining, ptr := remaining - 1, ptr + 1;
    if remaining < headerLen {
      return Truncated;
    }
    var skeyHeader := input[ptr..ptr + headerLen as int];
    ptr, remaining := ptr + headerLen, remaining - headerLen;
    if remaining < 16 {
      return Truncated;
    }
    var iv := input[ptr..ptr + 16];
    remaining, ptr := remaining - 16, ptr + 16;
    if remaining < 32 {
      return Truncated;
    }
    var remainingAfter := 32;
    remaining := remaining - 32;
    var data := input[ptr..ptr + remaining];
    ptr, remaining := ptr + remaining, remaining - remaining;
    remaining := remainingAfter;
    var hmac := input[ptr..ptr + 32];
    assert hmac == input[|input| - 32..];
    remaining, ptr := remaining - 32, ptr + 32;
    assert ptr + remaining == |input|;
    r := Ok(|input| - remaining, Box(fixedbytes0, fixedbytes1, headerLen, skeyHeader, iv, data, hmac));
  }
}
