/** sendme_cell.c: a versioned union whose version 0 arm is skipped, so that encoding is a normal form. */
module Sendme {
  import opened Wire
  import opened Buffer

  datatype Cell = Cell(version: byte, dataLen: u16, digest: bytes20)

  const BLANK: Cell := Cell(0, 0, Zeros(20))

  predicate CheckOk(x: Cell) {
    x.version == 0 || x.version == 1
  }

  /** The bytes of the active arm; version 0 has none. */
  function Payload(x: Cell): seq<byte> {
    if x.version == 1 then x.digest else []
  }

  function EncodedLen(x: Cell): nat {
    3 + |Payload(x)|
  }

  /** What is written for `x`, whatever its own length field says. */
  function Bytes(x: Cell): seq<byte> {
    [x.version] + Be16(|Payload(x)|) + Payload(x)
  }

  /** The same object with the inactive arm blank and the length field that is sent. */
  function Settled(x: Cell): Cell {
    Cell(x.version, |Payload(x)|, if x.version == 1 then x.digest else BLANK.digest)
  }

  /** The format; the version is judged as soon as it is there, before anything else has to be. */
  function Parse(s: seq<byte>): Parsed<Cell> {
    if |s| < 1 then Truncated
    else if s[0] != 0 && s[0] != 1 then Invalid
    else if |s| < 3 || |s| < 3 + Get16(s[1..]) as int then Truncated
    else
      var len := Get16(s[1..]);
      if s[0] == 0 then Ok(3 + len as int, BLANK.(dataLen := len))
      else if len == 20 then Ok(23, Cell(1, 20, s[3..23]))
      else Invalid
  }

  lemma ParseStable(s: seq<byte>, t: seq<byte>)
    ensures Parse(s) != Truncated ==> Parse(s + t) == Parse(s)
  {
    if |s| >= 3 {
      assert Get16((s + t)[1..]) == Get16(s[1..]);
      assert |s| >= 23 ==> (s + t)[3..23] == s[3..23];
    }
  }

  lemma ParseUndoesBytes(x: Cell, t: seq<byte>)
    requires CheckOk(x)
    ensures |Bytes(x)| == EncodedLen(x) && Parse(Bytes(x) + t) == Ok(EncodedLen(x), Settled(x))
  {
    hide Be16, Get16;
    var s, p := Bytes(x) + t, Payload(x);
    Be16RoundTrip(|p|, p + t);
    assert s[1..] == Be16(|p|) + (p + t) && s[3..] == p + t;
    assert x.version == 1 ==> s[3..23] == p;
  }

  /** Which inputs get which verdict: the version is judged first, a wrong length only when its data is there. */
  lemma VerdictsExactly(s: seq<byte>)
    ensures Parse(s) == Truncated <==>
              |s| < 1 || ((s[0] == 0 || s[0] == 1) && (|s| < 3 || |s| < 3 + (s[1] as int * 0x100 + s[2])))
    ensures Parse(s) == Invalid <==>
              || (|s| >= 1 && s[0] != 0 && s[0] != 1)
              || (|s| >= 3 && s[0] == 1 && s[1] as int * 0x100 + s[2] != 20 &&
                  |s| >= 3 + (s[1] as int * 0x100 + s[2]))
  {
    hide Get16;
    if |s| >= 3 {
      BigEndian16(0, s[1..]);
    }
  }

  /** Version 0 leaves the digest as a fresh struct has it. */
  lemma OtherArmBlank(s: seq<byte>)
    requires Parse(s).Ok? && s[0] == 0
    ensures AllZero(Parse(s).obj.digest)
  {
    hide AllZero, Get16;
    ZerosAre(20);
  }

  lemma PrefixIsTruncated(x: Cell, k: nat)
    requires CheckOk(x) && k < EncodedLen(x)
    ensures |Bytes(x)| == EncodedLen(x) && Parse(Bytes(x)[..k]) == Truncated
  {
    hide Parse, Bytes;
    ParseUndoesBytes(x, []);
    var p, q := Bytes(x)[..k], Bytes(x)[k..];
    assert p + q == Bytes(x) == Bytes(x) + [];
    ParseStable(p, q);
    if Parse(p).Ok? {
      ParseAccounts(p);
    }
  }

  /** The bytes an accepted object was parsed from but encoding leaves out. */
  function Skipped(x: Cell): nat {
    if x.version == 0 then x.dataLen else 0
  }

  /** Every byte consumed is either encoded again or skipped data of version 0. */
  lemma ParseAccounts(s: seq<byte>)
    requires Parse(s).Ok?
    ensures var r := Parse(s);
            r.n <= |s| && CheckOk(r.obj) && r.n == EncodedLen(r.obj) + Skipped(r.obj)
    ensures Bytes(Parse(s).obj) == if s[0] == 0 then [0] + Be16(0) else [1] + Be16(20) + s[3..23]
    ensures var r := Parse(s); Bytes(r.obj) == s[..r.n] <==> Skipped(r.obj) == 0
  {
    var r := Parse(s);
    Be16RoundTrip(0, s[1..]);
    var len := Get16(s[1..]);
    assert s[1..][..2] == s[1..3];
    if Skipped(r.obj) == 0 {
      assert s[..3] == [s[0]] + s[1..3] && s[..r.n] == s[..3] + s[3..r.n];
      assert Bytes(r.obj) == [s[0]] + Be16(len) + s[3..r.n];
    }
  }

  /** Parsing what was re-encoded gives the same object up to its length, and encoding again changes nothing. */
  lemma NormalForm(s: seq<byte>)
    requires Parse(s).Ok?
    ensures var x := Parse(s).obj;
            var sent := x.(dataLen := |Payload(x)|);
            Parse(Bytes(x)) == Ok(EncodedLen(x), sent) && Bytes(sent) == Bytes(x)
  {
    var x := Parse(s).obj;
    ParseAccounts(s);
    ParseUndoesBytes(x, []);
    assert Bytes(x) + [] == Bytes(x);
  }

  /** Where everything is in the bytes `s` of `x`, by position; what version 0 carries is not looked at. */
  ghost predicate Layout(s: seq<byte>, x: Cell) {
    && |s| >= 3 && x.version == s[0] && (s[0] == 0 || s[0] == 1)
    && x.dataLen == s[1] as int * 0x100 + s[2] && |s| == 3 + x.dataLen as int
    && (s[0] == 1 ==> |s| == 23 && x.digest == s[3..])
  }

  lemma BytesLaidOut(x: Cell)
    requires CheckOk(x)
    ensures |Bytes(x)| == EncodedLen(x) && Layout(Bytes(x), Settled(x))
  {
    hide Be16;
    BigEndian16(|Payload(x)|, []);
    assert Bytes(x)[3..] == Payload(x);
  }

  lemma ParsedLaidOut(s: seq<byte>)
    ensures var r := Parse(s); r.Ok? ==> r.n <= |s| && Layout(s[..r.n], r.obj)
  {
    hide Get16;
    if |s| >= 3 {
      BigEndian16(0, s[1..]);
    }
  }

  method Encode(out: array<byte>, off: nat, avail: nat, x: Cell) returns (r: int)
    requires off + avail <= out.Length
    modifies out
    ensures r == if !CheckOk(x) then -1 else if avail < EncodedLen(x) then -2 else EncodedLen(x)
    ensures SameOutside(old(out[..]), out[..], off, avail)
    ensures r >= 0 ==> Holds(out, old(out[..]), off, Bytes(x)) && Layout(out[off..off + r], Settled(x))
  {
    hide Holds, SameOutside, Be16, Layout, Settled;
    ghost var o := out[..];
    HoldsNothing(out, off, avail);
    if x.version != 0 && x.version != 1 {
      return -1;
    }
    assert [] + [x.version] == [x.version];
    var w := Emit(out, off, avail, 0, [x.version], o, []);
    if w < 0 {
      return -2;
    }
    var backptr := w;
    ghost var h := [x.version] + Be16(x.dataLen);
    w := Emit(out, off, avail, w, Be16(x.dataLen), o, [x.version]);
    if w < 0 {
      return -2;
    }
    var beforeUnion := w;
    assert h + [] == h;
    if x.version == 1 {
      w := Emit(out, off, avail, w, x.digest, o, h);
      if w < 0 {
        return -2;
      }
    }
    var written: u16 := w - beforeUnion;
    Patch(out, off, avail, backptr, Be16(written), o, h + Payload(x));
    assert (h + Payload(x))[..1] + Be16(written) + (h + Payload(x))[3..] == Bytes(x);
    HoldsSlice(out, o, off, Bytes(x));
    BytesLaidOut(x);
    r := w;
  }

  method ParseInto(input: seq<byte>) returns (r: Parsed<Cell>)
    ensures r == Parse(input)
    ensures r.Ok? ==> r.n <= |input| && Layout(input[..r.n], r.obj)
  {
    hide Layout, Get16;
    ParsedLaidOut(input);
    var obj := BLANK;
    var ptr, remaining := 0, |input|;
    if remaining < 1 {
      return Truncated;
    }
    obj := obj.(version := input[ptr]);
    remaining, ptr := remaining - 1, ptr + 1;
    if !(obj.version == 0 || obj.version == 1) {
      return Invalid;
    }
    if remaining < 2 {
      return Truncated;
    }
    obj := obj.(dataLen := Get16(input[ptr..]));
    remaining, ptr := remaining - 2, ptr + 2;
    if remaining < obj.dataLen {
      return Truncated;
    }
    var remainingAfter := remaining - obj.dataLen;
    remaining := obj.dataLen;
    if obj.version == 0 {
      ptr, remaining := ptr + remaining, 0;
    } else {
      if remaining < 20 {
        return Invalid;
      }
      obj := obj.(digest := input[ptr..ptr + 20]);
      remaining, ptr := remaining - 20, ptr + 20;
    }
    if remaining != 0 {
      return Invalid;
    }
    remaining := remainingAfter;
    assert ptr + remaining == |input|;
    r := Ok(|input| - remaining, obj);
  }
}
