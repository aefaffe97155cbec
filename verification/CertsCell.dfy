/** link_handshake.c: certs_cell, a counted list of certificates with two-byte lengths. */
module CertsCell {
  import opened Wire
  import opened Buffer

  datatype Cert = Cert(certType: byte, certLen: u16, body: seq<byte>)

  predicate CertOk(x: Cert) {
    |x.body| == x.certLen
  }

  function CertLen(x: Cert): nat {
    3 + |x.body|
  }

  function CertBytes(x: Cert): seq<byte> {
    [x.certType] + Be16(x.certLen) + x.body
  }

  function ParseCert(s: seq<byte>): Parsed<Cert> {
    if |s| < 3 || |s| < 3 + Get16(s[1..]) as int then Truncated
    else Ok(3 + Get16(s[1..]) as int, Cert(s[0], Get16(s[1..]), s[3..3 + Get16(s[1..]) as int]))
  }

  lemma CertLaws()
    ensures Stable(ParseCert) && Within(ParseCert)
    ensures Canonical(ParseCert, CertBytes, CertOk) && RoundTrips(ParseCert, CertBytes, CertOk)
  {
    forall s, t | ParseCert(s) != Truncated ensures ParseCert(s + t) == ParseCert(s) {
      CertStable(s, t);
    }
    forall s | ParseCert(s).Ok? ensures CertOk(ParseCert(s).obj) && CertBytes(ParseCert(s).obj) == s[..ParseCert(s).n] {
      CertCanonical(s);
    }
    forall x, t | CertOk(x) ensures ParseCert(CertBytes(x) + t) == Ok(|CertBytes(x)|, x) {
      CertRoundTrips(x, t);
    }
  }

  lemma CertStable(s: seq<byte>, t: seq<byte>)
    requires ParseCert(s) != Truncated
    ensures ParseCert(s + t) == ParseCert(s)
  {
    var k := 3 + Get16(s[1..]) as int;
    assert Get16((s + t)[1..]) == Get16(s[1..]);
    assert (s + t)[3..k] == s[3..k];
  }

  lemma CertCanonical(s: seq<byte>)
    requires ParseCert(s).Ok?
    ensures CertOk(ParseCert(s).obj) && CertBytes(ParseCert(s).obj) == s[..ParseCert(s).n]
  {
    Be16RoundTrip(0, s[1..]);
    assert s[1..][..2] == s[1..3];
  }

  lemma CertRoundTrips(x: Cert, t: seq<byte>)
    requires CertOk(x)
    ensures ParseCert(CertBytes(x) + t) == Ok(|CertBytes(x)|, x)
  {
    var s := CertBytes(x) + t;
    Be16RoundTrip(x.certLen, x.body + t);
    assert s[1..] == Be16(x.certLen) + (x.body + t);
    assert s[3..3 + x.certLen as int] == x.body;
  }

  /** Where everything is in the bytes `s` of `x`, by position. */
  ghost predicate CertLayout(s: seq<byte>, x: Cert) {
    && |s| >= 3 && x.certType == s[0] && x.certLen == s[1] as int * 0x100 + s[2] && |s| == 3 + x.certLen as int
    && x.body == s[3..]
  }

  lemma CertLaidOut(x: Cert)
    requires CertOk(x)
    ensures CertLayout(CertBytes(x), x)
  {
    hide Be16;
    BigEndian16(x.certLen, []);
    assert CertBytes(x)[3..] == x.body;
  }

  lemma CertBytesLength(x: Cert)
    ensures |CertBytes(x)| == CertLen(x)
  {
  }

  method EncodeCert(out: array<byte>, off: nat, avail: nat, x: Cert) returns (r: int)
    requires off + avail <= out.Length
    modifies out
    ensures r == if !CertOk(x) then -1 else if avail < CertLen(x) then -2 else CertLen(x)
    ensures SameOutside(old(out[..]), out[..], off, avail)
    ensures r >= 0 ==> Holds(out, old(out[..]), off, CertBytes(x))
  {
    hide Holds, SameOutside, Be16;
    ghost var o := out[..];
    HoldsNothing(out, off, avail);
    if |x.body| != x.certLen {
      return -1;
    }
    assert [] + [x.certType] == [x.certType];
    var w := Emit(out, off, avail, 0, [x.certType], o, []);
    if w < 0 {
      return -2;
    }
    w := Emit(out, off, avail, w, Be16(x.certLen), o, [x.certType]);
    if w < 0 {
      return -2;
    }
    r := Emit(out, off, avail, w, x.body, o, [x.certType] + Be16(x.certLen));
  }

  method ParseCertInto(input: seq<byte>) returns (r: Parsed<Cert>)
    ensures r == ParseCert(input)
  {
    var ptr, remaining := 0, |input|;
    if remaining < 1 {
      return Truncated;
    }
    var certType := input[ptr];
    remaining, ptr := remaining - 1, ptr + 1;
    if remaining < 2 {
      return Truncated;
    }
    var certLen := Get16(input[ptr..]);
    remaining, ptr := remaining - 2, ptr + 2;
    if remaining < certLen {
      return Truncated;
    }
    var body := input[ptr..ptr + certLen as int];
    ptr, remaining := ptr + certLen, remaining - certLen;
    assert ptr + remaining == |input|;
    r := Ok(|input| - remaining, Cert(certType, certLen, body));
  }

  // ---- the counted list ----

  datatype Cell = Cell(nCerts: byte, certs: seq<Cert>)

  predicate CheckOk(x: Cell) {
    |x.certs| == x.nCerts && AllGood(CertOk, x.certs)
  }

  function EncodedLen(x: Cell): nat {
    1 + TotalLen(CertLen, x.certs)
  }

  function Bytes(x: Cell): seq<byte> {
    CountedBytes(CertBytes, x.nCerts, x.certs)
  }

  function Parse(s: seq<byte>): Parsed<Cell> {
    var (n, xs) :- ParseCounted(ParseCert, s);
    Ok(n, Cell(s[0], xs))
  }

  lemma ParseStable(s: seq<byte>, t: seq<byte>)
    ensures Parse(s) != Truncated ==> Parse(s + t) == Parse(s)
  {
    hide ParseCert, CertBytes, CertOk, Stable, Within, Canonical, RoundTrips, ParseCounted;
    CertLaws();
    CountedStable(ParseCert, s, t);
  }

  lemma ParseCanonical(s: seq<byte>)
    requires Parse(s).Ok?
    ensures var r := Parse(s); r.n <= |s| && CheckOk(r.obj) && Bytes(r.obj) == s[..r.n]
  {
    hide ParseCert, CertBytes, CertOk, Stable, Within, Canonical, RoundTrips, ParseCounted;
    CertLaws();
    CountedCanonical(ParseCert, CertBytes, CertOk, s);
  }

  lemma ParseUndoesBytes(x: Cell, t: seq<byte>)
    requires CheckOk(x)
    ensures |Bytes(x)| == EncodedLen(x) && Parse(Bytes(x) + t) == Ok(EncodedLen(x), x)
  {
    hide ParseCert, CertBytes, CertOk, CertLen, Stable, Within, Canonical, RoundTrips, ParseCounted, EncodeMany;
    CertLaws();
    CountedRoundTrips(ParseCert, CertBytes, CertOk, x.nCerts, x.certs, t);
    forall y | y in x.certs ensures |CertBytes(y)| == CertLen(y) {
      CertBytesLength(y);
    }
    ManyLength(CertBytes, CertLen, x.certs);
  }

  ghost predicate Layout(s: seq<byte>, x: Cell) {
    |s| >= 1 && x.nCerts == s[0] && |x.certs| == s[0] && LaidOut(CertLayout, CertLen, s[1..], x.certs)
  }

  lemma BytesLaidOut(x: Cell)
    requires CheckOk(x)
    ensures Layout(Bytes(x), x)
  {
    hide LaidOut, CertLayout, CertBytes, CertLen, CertOk, EncodeMany;
    forall i | 0 <= i < |x.certs|
      ensures var y := x.certs[i]; |CertBytes(y)| == CertLen(y) && CertLayout(CertBytes(y), y)
    {
      AllOk(x.certs, i);
      CertBytesLength(x.certs[i]);
      CertLaidOut(x.certs[i]);
    }
    ManyLaidOut(CertLayout, CertLen, CertBytes, x.certs);
    assert Bytes(x)[1..] == EncodeMany(CertBytes, x.certs);
  }

  lemma ParsedLaidOut(s: seq<byte>)
    ensures var r := Parse(s); r.Ok? ==> r.n <= |s| && Layout(s[..r.n], r.obj)
  {
    hide Parse, Bytes, Layout, CheckOk;
    if Parse(s).Ok? {
      ParseCanonical(s);
      BytesLaidOut(Parse(s).obj);
    }
  }

  /** What is not accepted is truncated. */
  lemma NeverInvalid(s: seq<byte>)
    ensures ParseCert(s) == Truncated <==> |s| < 3 || |s| < 3 + (s[1] as int * 0x100 + s[2])
    ensures ParseCert(s) != Invalid && Parse(s) != Invalid
  {
    hide Get16, ParseMany;
    if |s| >= 3 {
      BigEndian16(0, s[1..]);
    }
    if |s| >= 1 {
      ManyNeverInvalid(ParseCert, s[0], s[1..]);
    }
  }

  lemma PrefixIsTruncated(x: Cell, k: nat)
    requires CheckOk(x) && k < EncodedLen(x)
    ensures |Bytes(x)| == EncodedLen(x) && Parse(Bytes(x)[..k]) == Truncated
  {
    hide Parse, Bytes;
    ParseUndoesBytes(x, []);
    var p, q := Bytes(x)[..k], Bytes(x)[k..];
    assert p + q == Bytes(x) == Bytes(x) + [];
    ParseStable(p, q);
    if Parse(p).Ok? {
      ParseCanonical(p);
    }
  }

  lemma NoCerts()
    ensures EncodeMany(CertBytes, []) == []
  {
  }

  lemma AllOk(xs: seq<Cert>, i: nat)
    requires AllGood(CertOk, xs) && i < |xs|
    ensures CertOk(xs[i])
  {
  }

  /** Encoding returns the encoded length when it fits and every count agrees, and writes nowhere else. */
  method Encode(out: array<byte>, off: nat, avail: nat, x: Cell) returns (w: int)
    requires off + avail <= out.Length
    modifies out
    ensures w == if !CheckOk(x) then -1 else if avail < EncodedLen(x) then -2 else EncodedLen(x)
    ensures SameOutside(old(out[..]), out[..], off, avail)
    ensures w >= 0 ==> Holds(out, old(out[..]), off, Bytes(x)) && Layout(out[off..off + w], x)
  {
    hide Holds, SameOutside, CertBytes, CertLen, CertOk, EncodeMany, Written, AllGood, Layout;
    NoCerts();
    ghost var o := out[..];
    HoldsNothing(out, off, avail);
    if !CheckOk(x) {
      return -1;
    }
    var xs := x.certs;
    assert [] + [x.nCerts] == [x.nCerts];
    w := Emit(out, off, avail, 0, [x.nCerts], o, []);
    if w < 0 {
      return -2;
    }
    ghost var sent := [x.nCerts];
    assert xs[..0] == [] && sent + [] == sent && xs[0..] == xs;
    for idx := 0 to |xs|
      invariant Holds(out, o, off, sent) && SameOutside(o, out[..], off, avail)
      invariant sent == [x.nCerts] + EncodeMany(CertBytes, xs[..idx]) && w == |sent| <= avail
      invariant EncodedLen(x) == w + TotalLen(CertLen, xs[idx..])
    {
      HoldsIs(out, o, off, sent);
      AllOk(xs, idx);
      var r := EncodeCert(out, off + w, avail - w, xs[idx]);
      assert xs[idx..][1..] == xs[idx + 1..];
      if r < 0 {
        OutsideNested(o, out[..], off, avail, sent);
        return r;
      }
      CertBytesLength(xs[idx]);
      HoldsNested(out, o, off, sent, CertBytes(xs[idx]));
      sent := sent + CertBytes(xs[idx]);
      HoldsWithin(out, o, off, sent, avail);
      ManyAppend(CertBytes, xs[..idx], xs[idx]);
      assert xs[..idx] + [xs[idx]] == xs[..idx + 1];
      w := w + r;
    }
    assert xs[..|xs|] == xs;
    HoldsSlice(out, o, off, Bytes(x));
    BytesLaidOut(x);
  }

  method ParseInto(input: seq<byte>) returns (r: Parsed<Cell>)
    ensures r == Parse(input)
    ensures r.Ok? ==> r.n <= |input| && Layout(input[..r.n], r.obj)
  {
    hide ParseCert, Prepended, ParseMany, Within, Layout;
    ParsedLaidOut(input);
    CertWithin();
    if |input| < 1 {
      return Truncated;
    }
    var nCerts := input[0];
    var ptr: nat, xs: seq<Cert> := 1, [];
    ghost var whole := ParseMany(ParseCert, nCerts, input[1..]);
    PrependedNothing(whole);
    for idx := 0 to nCerts
      invariant 1 <= ptr <= |input|
      invariant whole == Prepended(ptr - 1, xs, ParseMany(ParseCert, nCerts - idx, input[ptr..]))
    {
      PrependedStep(ParseCert, nCerts - idx, input[ptr..], ptr - 1, xs);
      var e := ParseCertInto(input[ptr..]);
      if e.IsFailure() {
        return e.PropagateFailure();
      }
      WithinAt(ParseCert, input[ptr..]);
      assert Drop(input[ptr..], e.n) == input[ptr + e.n..];
      ptr, xs := ptr + e.n, xs + [e.obj];
    }
    PrependedEnd(ParseCert, input[ptr..], ptr - 1, xs);
    r := Ok(ptr, Cell(nCerts, xs));
  }

  lemma CertWithin()
    ensures Within(ParseCert)
  {
  }
}
