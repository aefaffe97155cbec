/** ed25519_cert.c: ed25519_cert, a fixed header, a counted list of extensions, and a signature. */
module Ed25519Cert {
  import opened Wire
  import opened Buffer
  import Ext = CertExtension

  datatype Cert = Cert(
    version: byte,
    certType: byte,
    expField: u32,
    certKeyType: byte,
    certifiedKey: bytes32,
    nExtensions: byte,
    ext: seq<Ext.Spec>,
    signature: bytes64)

  predicate CheckOk(x: Cert) {
    x.version == 1 && |x.ext| == x.nExtensions
  }

  /** Every extension fits its length field and is as a parser leaves it. */
  predicate Good(x: Cert) {
    CheckOk(x) && AllGood(Ext.Good, x.ext)
  }

  function Header(x: Cert): (h: seq<byte>)
    ensures |h| == 40
  {
    [x.version, x.certType] + Be32(x.expField) + [x.certKeyType] + x.certifiedKey + [x.nExtensions]
  }

  function Bytes(x: Cert): seq<byte> {
    Header(x) + EncodeMany(Ext.Bytes, x.ext) + x.signature
  }

  function EncodedLen(x: Cert): nat {
    104 + TotalLen(Ext.EncodedLen, x.ext)
  }

  /** A wrong version is reported before anything else is looked at. */
  function Parse(s: seq<byte>): Parsed<Cert> {
    if |s| < 1 then Truncated
    else if s[0] != 1 then Invalid
    else if |s| < 40 then Truncated
    else
      var (n, ext) :- ParseMany(Ext.Parse, s[39], s[40..]);
      var rest := Drop(s, 40 + n);
      if |rest| < 64 then Truncated
      else Ok(104 + n, Cert(1, s[1], Get32(s[2..]), s[6], s[7..39], s[39], ext, rest[..64]))
  }

  lemma ParseStable(s: seq<byte>, t: seq<byte>)
    ensures Parse(s) != Truncated ==> Parse(s + t) == Parse(s)
  {
    hide Ext.Parse, Ext.Bytes, Ext.Good, Stable, Within, Canonical, RoundTrips, ParseMany, EncodeMany, Get32, Drop;
    Ext.Laws();
    if |s| >= 40 {
      var u := s + t;
      assert u[2..] == s[2..] + t && u[7..39] == s[7..39] && u[40..] == s[40..] + t;
      Get32Prefix(s[2..], t);
      ManyStable(Ext.Parse, s[39], s[40..], t);
      ManyWithin(Ext.Parse, s[39], s[40..]);
      var e := ParseMany(Ext.Parse, s[39], s[40..]);
      if e.Ok? {
        DropAppend(s, t, 40 + e.n);
        var rest := Drop(s, 40 + e.n);
        assert |rest| >= 64 ==> (rest + t)[..64] == rest[..64];
      }
    }
  }

  lemma ParseCanonical(s: seq<byte>)
    ensures var r := Parse(s); r.Ok? ==> r.n <= |s| && Good(r.obj) && Bytes(r.obj) == s[..r.n]
  {
    hide Ext.Parse, Ext.Bytes, Ext.Good, Stable, Within, Canonical, RoundTrips, ParseMany, EncodeMany, Get32, Header;
    Ext.Laws();
    var r := Parse(s);
    if r.Ok? {
      ManyCanonical(Ext.Parse, Ext.Bytes, Ext.Good, s[39], s[40..]);
      HeaderParsed(s, r.obj);
      var n := r.n - 104;
      assert s[..r.n] == s[..40] + s[40..][..n] + s[40 + n..][..64];
    }
  }

  lemma HeaderParsed(s: seq<byte>, x: Cert)
    requires |s| >= 40 && x.version == s[0] && x.certType == s[1] && x.expField == Get32(s[2..])
    requires x.certKeyType == s[6] && x.certifiedKey == s[7..39] && x.nExtensions == s[39]
    ensures Header(x) == s[..40]
  {
    Be32RoundTrip(0, s[2..]);
    assert s[..40] == [s[0], s[1]] + s[2..][..4] + [s[6]] + s[7..39] + [s[39]];
  }

  lemma HeaderRead(x: Cert, t: seq<byte>)
    ensures var s := Header(x) + t;
            s[0] == x.version && s[1] == x.certType && Get32(s[2..]) == x.expField && s[6] == x.certKeyType &&
            s[7..39] == x.certifiedKey && s[39] == x.nExtensions && s[40..] == t
  {
    var s := Header(x) + t;
    var u := [x.certKeyType] + x.certifiedKey + [x.nExtensions] + t;
    Be32RoundTrip(x.expField, u);
    assert s[2..] == Be32(x.expField) + u;
  }

  lemma ParseRoundTrips(x: Cert, t: seq<byte>)
    requires Good(x)
    ensures Parse(Bytes(x) + t) == Ok(|Bytes(x)|, x)
  {
    hide Ext.Parse, Ext.Bytes, Ext.Good, Stable, Within, Canonical, RoundTrips, ParseMany, EncodeMany, Header;
    Ext.Laws();
    var e, s := EncodeMany(Ext.Bytes, x.ext), Bytes(x) + t;
    ManyRoundTrips(Ext.Parse, Ext.Bytes, Ext.Good, x.ext, x.signature + t);
    assert s == Header(x) + (e + (x.signature + t));
    HeaderRead(x, e + (x.signature + t));
    assert Drop(s, 40 + |e|) == x.signature + t;
  }

  /** Parsing undoes any encoding there can be: only inactive arms and length fields are settled by it. */
  lemma ParseUndoesBytes(x: Cert, t: seq<byte>)
    requires CheckOk(x) && forall e | e in x.ext :: Ext.Fits(e)
    ensures |Bytes(x)| == EncodedLen(x)
    ensures Parse(Bytes(x) + t) == Ok(EncodedLen(x), x.(ext := Mapped(Ext.Settled, x.ext)))
  {
    hide Parse, EncodeMany, TotalLen, Mapped, AllGood;
    Ext.SettledSameAll(x.ext);
    ParseRoundTrips(x.(ext := Mapped(Ext.Settled, x.ext)), t);
  }

  /** Invalid is a version other than 1, or an extension: a signing key that does not have 32 bytes. */
  lemma InvalidExactly(s: seq<byte>)
    ensures Parse(s) == Invalid <==>
              |s| >= 1 && (s[0] != 1 ||
                           (|s| >= 40 && exists k: nat ::
                              k < s[39] && ParseMany(Ext.Parse, k, s[40..]).Ok? &&
                              Ext.Parse(Drop(s[40..], ParseMany(Ext.Parse, k, s[40..]).n)) == Invalid))
  {
    hide Ext.Parse, ParseMany, Drop, Get32;
    if |s| >= 40 && s[0] == 1 {
      if ParseMany(Ext.Parse, s[39], s[40..]) == Invalid {
        var k := ManyFirstFailure(Ext.Parse, s[39], s[40..]);
        assert Ext.Parse(Drop(s[40..], ParseMany(Ext.Parse, k, s[40..]).n)) == Invalid;
      }
      if k: nat :| k < s[39] && ParseMany(Ext.Parse, k, s[40..]).Ok? &&
                   Ext.Parse(Drop(s[40..], ParseMany(Ext.Parse, k, s[40..]).n)) == Invalid {
        ManyFailsAt(Ext.Parse, s[39], s[40..], k);
      }
    }
  }

  lemma PrefixIsTruncated(x: Cert, k: nat)
    requires CheckOk(x) && k < EncodedLen(x) && forall e | e in x.ext :: Ext.Fits(e)
    ensures |Bytes(x)| == EncodedLen(x) && Parse(Bytes(x)[..k]) == Truncated
  {
    hide Parse, Bytes, Good;
    ParseUndoesBytes(x, []);
    var p, q := Bytes(x)[..k], Bytes(x)[k..];
    assert p + q == Bytes(x) == Bytes(x) + [];
    ParseStable(p, q);
    ParseCanonical(p);
  }

  /** Where everything is in the bytes `s` of `x`, by position: the expiration is the big-endian word at 2. */
  ghost predicate Layout(s: seq<byte>, x: Cert) {
    && |s| >= 104 && s[0] == 1 && x.version == s[0] && x.certType == s[1]
    && x.expField == s[2] as int * 0x100_0000 + s[3] as int * 0x1_0000 + s[4] as int * 0x100 + s[5]
    && x.certKeyType == s[6] && x.certifiedKey == s[7..39] && x.nExtensions == s[39] && |x.ext| == s[39]
    && LaidOut(Ext.Layout, Ext.EncodedLen, s[40..|s| - 64], x.ext) && x.signature == s[|s| - 64..]
  }

  lemma PartsLaidOut(x: Cert, e: seq<byte>)
    requires CheckOk(x) && LaidOut(Ext.Layout, Ext.EncodedLen, e, x.ext)
    ensures Layout(Header(x) + e + x.signature, x)
  {
    hide LaidOut, Header, Get32;
    var s := Header(x) + (e + x.signature);
    assert Header(x) + e + x.signature == s;
    HeaderRead(x, e + x.signature);
    BigEndian32(0, s[2..]);
    assert s[40..|s| - 64] == e && s[|s| - 64..] == x.signature;
  }

  lemma BytesLaidOut(x: Cert)
    requires CheckOk(x) && forall e | e in x.ext :: Ext.Fits(e)
    ensures Layout(Bytes(x), x.(ext := Mapped(Ext.Settled, x.ext)))
  {
    hide LaidOut, Layout, Mapped, EncodeMany, Ext.Fits, Ext.Settled, Ext.Layout;
    Ext.SettledSameAll(x.ext);
    Ext.ManyBytesLaidOut(x.ext);
    PartsLaidOut(x.(ext := Mapped(Ext.Settled, x.ext)), EncodeMany(Ext.Bytes, x.ext));
  }

  lemma ParsedLaidOut(s: seq<byte>)
    ensures var r := Parse(s); r.Ok? ==> r.n <= |s| && Layout(s[..r.n], r.obj)
  {
    hide Parse, Layout, LaidOut, EncodeMany, Header, Ext.Good, Ext.Layout;
    ParseCanonical(s);
    if Parse(s).Ok? {
      var x := Parse(s).obj;
      Ext.ManyGoodLaidOut(x.ext);
      PartsLaidOut(x, EncodeMany(Ext.Bytes, x.ext));
    }
  }

  function EncodeResult(x: Cert, avail: nat): int {
    if !CheckOk(x) then -1
    else if avail < 40 then -2
    else
      var m := ManyResult(Ext.EncodeResult, x.ext, avail - 40);
      if m < 0 then m else if avail < 104 + m then -2 else 104 + m
  }

  /** The first six fields. */
  method EncodeHeader(out: array<byte>, off: nat, avail: nat, x: Cert, ghost o: seq<byte>) returns (w: int)
    requires off + avail <= out.Length && o == out[..]
    modifies out
    ensures SameOutside(o, out[..], off, avail)
    ensures if avail < 40 then w == -2 else w == 40 && Holds(out, o, off, Header(x))
  {
    hide Holds, SameOutside, Be32;
    HoldsNothing(out, off, avail);
    ghost var h1 := [x.version] + [x.certType];
    ghost var h2 := h1 + Be32(x.expField);
    ghost var h3 := h2 + [x.certKeyType] + x.certifiedKey;
    assert [] + [x.version] == [x.version] && h3 + [x.nExtensions] == Header(x);
    w := Emit(out, off, avail, 0, [x.version], o, []);
    if w < 0 {
      return;
    }
    w := Emit(out, off, avail, w, [x.certType], o, [x.version]);
    if w < 0 {
      return;
    }
    w := Emit(out, off, avail, w, Be32(x.expField), o, h1);
    if w < 0 {
      return;
    }
    w := Emit(out, off, avail, w, [x.certKeyType], o, h2);
    if w < 0 {
      return;
    }
    w := Emit(out, off, avail, w, x.certifiedKey, o, h2 + [x.certKeyType]);
    if w < 0 {
      return;
    }
    w := Emit(out, off, avail, w, [x.nExtensions], o, h3);
  }

  method Encode(out: array<byte>, off: nat, avail: nat, x: Cert) returns (r: int)
    requires off + avail <= out.Length
    modifies out
    ensures r == EncodeResult(x, avail)
    ensures SameOutside(old(out[..]), out[..], off, avail)
    ensures r >= 0 ==> Holds(out, old(out[..]), off, Bytes(x)) &&
                       r <= avail && Layout(out[off..off + r], x.(ext := Mapped(Ext.Settled, x.ext)))
  {
    hide Holds, SameOutside, Header, Ext.EncodeResult, ManyResult, EncodeMany, Layout, Mapped, Ext.Fits, EncodedLen;
    Succeeds(x, avail);
    ghost var o := out[..];
    HoldsNothing(out, off, avail);
    if x.version != 1 || |x.ext| != x.nExtensions {
      return -1;
    }
    var w := EncodeHeader(out, off, avail, x, o);
    if w < 0 {
      return -2;
    }
    w := Ext.EncodeAll(out, off, avail, w, x.ext, o, Header(x));
    if w < 0 {
      return w;
    }
    r := Emit(out, off, avail, w, x.signature, o, Header(x) + EncodeMany(Ext.Bytes, x.ext));
    if r >= 0 {
      Readable(out, o, off, x);
    }
  }

  lemma Succeeds(x: Cert, avail: nat)
    ensures EncodeResult(x, avail) >= 0 ==>
              CheckOk(x) && (forall e | e in x.ext :: Ext.Fits(e)) && EncodeResult(x, avail) == EncodedLen(x) <= avail
  {
    hide Ext.EncodeResult, Ext.Fits, ManyResult, EncodedLen;
    if CheckOk(x) {
      EncodeExactly(x, avail);
    }
  }

  lemma Readable(out: array<byte>, o: seq<byte>, off: nat, x: Cert)
    requires CheckOk(x) && (forall e | e in x.ext :: Ext.Fits(e)) && Holds(out, o, off, Bytes(x))
    ensures var n := EncodedLen(x);
            off + n <= out.Length && Layout(out[off..off + n], x.(ext := Mapped(Ext.Settled, x.ext)))
  {
    hide Holds, Bytes, Layout, Ext.Fits, Mapped, EncodedLen, Parse, CheckOk, Ext.Settled;
    HoldsSlice(out, o, off, Bytes(x));
    ParseUndoesBytes(x, []);
    BytesLaidOut(x);
  }

  method ParseInto(input: seq<byte>) returns (r: Parsed<Cert>)
    ensures r == Parse(input)
    ensures r.Ok? ==> r.n <= |input| && Layout(input[..r.n], r.obj)
  {
    hide Ext.Parse, ParseMany, Within, Get32, Layout;
    ParsedLaidOut(input);
    Ext.ParseWithin();
    var ptr, remaining := 0, |input|;
    if remaining < 1 {
      return Truncated;
    }
    var version := input[ptr];
    remaining, ptr := remaining - 1, ptr + 1;
    if version != 1 {
      return Invalid;
    }
    if remaining < 1 {
      return Truncated;
    }
    var certType := input[ptr];
    remaining, ptr := remaining - 1, ptr + 1;
    if remaining < 4 {
      return Truncated;
    }
    var expField := Get32(input[ptr..]);
    remaining, ptr := remaining - 4, ptr + 4;
    if remaining < 1 {
      return Truncated;
    }
    var certKeyType := input[ptr];
    remaining, ptr := remaining - 1, ptr + 1;
    if remaining < 32 {
      return Truncated;
    }
    var certifiedKey := input[ptr..ptr + 32];
    remaining, ptr := remaining - 32, ptr + 32;
    if remaining < 1 {
      return Truncated;
    }
    var nExtensions := input[ptr];
    remaining, ptr := remaining - 1, ptr + 1;
    var e := Ext.ParseAll(input[ptr..], nExtensions);
    if e.IsFailure() {
      return e.PropagateFailure();
    }
    ManyWithin(Ext.Parse, nExtensions, input[40..]);
    remaining, ptr := remaining - e.n, ptr + e.n;
    if remaining < 64 {
      return Truncated;
    }
    var signature := input[ptr..ptr + 64];
    assert signature == Drop(input, 40 + e.n)[..64];
    remaining, ptr := remaining - 64, ptr + 64;
    assert ptr + remaining == |input|;
    var cert := Cert(version, certType, expField, certKeyType, certifiedKey, nExtensions, e.obj, signature);
    r := Ok(|input| - remaining, cert);
  }

  /** Encoding succeeds exactly when every extension's arm fits its length field and the buffer is long enough. */
  lemma EncodeExactly(x: Cert, avail: nat)
    requires CheckOk(x)
    ensures EncodeResult(x, avail) >= 0 <==> EncodedLen(x) <= avail && forall e | e in x.ext :: Ext.Fits(e)
    ensures (forall e | e in x.ext :: Ext.Fits(e)) ==>
              EncodeResult(x, avail) == if EncodedLen(x) <= avail then EncodedLen(x) else -2
  {
    hide Ext.EncodeResult, Ext.EncodedLen, Ext.Fits;
    Ext.EncodeResultShape();
    if avail >= 40 {
      ManyResultExactly(Ext.EncodeResult, Ext.EncodedLen, Ext.Fits, x.ext, avail - 40);
    }
  }
}
