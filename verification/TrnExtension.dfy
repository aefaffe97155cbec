/** extension.c: trn_extension, a counted list of fields with one-byte lengths. */
module TrnExtension {
  import opened Wire
  import opened Buffer

  datatype Field = Field(fieldType: byte, fieldLen: byte, field: seq<byte>)

  predicate FieldOk(x: Field) {
    |x.field| == x.fieldLen
  }

  function FieldLen(x: Field): nat {
    2 + |x.field|
  }

  function FieldBytes(x: Field): seq<byte> {
    [x.fieldType, x.fieldLen] + x.field
  }

  function ParseField(s: seq<byte>): Parsed<Field> {
    if |s| < 2 || |s| < 2 + s[1] as int then Truncated
    else Ok(2 + s[1] as int, Field(s[0], s[1], s[2..2 + s[1] as int]))
  }

  lemma FieldLaws()
    ensures Stable(ParseField) && Within(ParseField)
    ensures Canonical(ParseField, FieldBytes, FieldOk) && RoundTrips(ParseField, FieldBytes, FieldOk)
  {
    forall s, t | ParseField(s) != Truncated ensures ParseField(s + t) == ParseField(s) {
      FieldStable(s, t);
    }
    forall s | ParseField(s).Ok?
      ensures FieldOk(ParseField(s).obj) && FieldBytes(ParseField(s).obj) == s[..ParseField(s).n]
    {
      FieldCanonical(s);
    }
    forall x, t | FieldOk(x) ensures ParseField(FieldBytes(x) + t) == Ok(|FieldBytes(x)|, x) {
      FieldRoundTrips(x, t);
    }
  }

  lemma FieldStable(s: seq<byte>, t: seq<byte>)
    requires ParseField(s) != Truncated
    ensures ParseField(s + t) == ParseField(s)
  {
    var k := 2 + s[1] as int;
    assert (s + t)[2..k] == s[2..k];
  }

  lemma FieldCanonical(s: seq<byte>)
    requires ParseField(s).Ok?
    ensures FieldOk(ParseField(s).obj) && FieldBytes(ParseField(s).obj) == s[..ParseField(s).n]
  {
  }

  lemma FieldRoundTrips(x: Field, t: seq<byte>)
    requires FieldOk(x)
    ensures ParseField(FieldBytes(x) + t) == Ok(|FieldBytes(x)|, x)
  {
    var s := FieldBytes(x) + t;
    assert s[2..2 + x.fieldLen as int] == x.field;
  }

  /** Where everything is in the bytes `s` of `x`, by position. */
  ghost predicate FieldLayout(s: seq<byte>, x: Field) {
    && |s| >= 2 && x.fieldType == s[0] && x.fieldLen == s[1] && |s| == 2 + x.fieldLen as int && x.field == s[2..]
  }

  lemma FieldLaidOut(x: Field)
    requires FieldOk(x)
    ensures FieldLayout(FieldBytes(x), x)
  {
  }

  lemma FieldBytesLength(x: Field)
    ensures |FieldBytes(x)| == FieldLen(x)
  {
  }

  method EncodeField(out: array<byte>, off: nat, avail: nat, x: Field) returns (r: int)
    requires off + avail <= out.Length
    modifies out
    ensures r == if !FieldOk(x) then -1 else if avail < FieldLen(x) then -2 else FieldLen(x)
    ensures SameOutside(old(out[..]), out[..], off, avail)
    ensures r >= 0 ==> Holds(out, old(out[..]), off, FieldBytes(x))
  {
    hide Holds, SameOutside;
    ghost var o := out[..];
    HoldsNothing(out, off, avail);
    if |x.field| != x.fieldLen {
      return -1;
    }
    assert [] + [x.fieldType] == [x.fieldType] && [x.fieldType] + [x.fieldLen] == [x.fieldType, x.fieldLen];
    var w := Emit(out, off, avail, 0, [x.fieldType], o, []);
    if w < 0 {
      return -2;
    }
    w := Emit(out, off, avail, w, [x.fieldLen], o, [x.fieldType]);
    if w < 0 {
      return -2;
    }
    r := Emit(out, off, avail, w, x.field, o, [x.fieldType, x.fieldLen]);
  }

  method ParseFieldInto(input: seq<byte>) returns (r: Parsed<Field>)
    ensures r == ParseField(input)
  {
    var ptr, remaining := 0, |input|;
    if remaining < 1 {
      return Truncated;
    }
    var fieldType := input[ptr];
    remaining, ptr := remaining - 1, ptr + 1;
    if remaining < 1 {
      return Truncated;
    }
    var fieldLen := input[ptr];
    remaining, ptr := remaining - 1, ptr + 1;
    if remaining < fieldLen {
      return Truncated;
    }
    var field := input[ptr..ptr + fieldLen as int];
    ptr, remaining := ptr + fieldLen, remaining - fieldLen;
    assert ptr + remaining == |input|;
    r := Ok(|input| - remaining, Field(fieldType, fieldLen, field));
  }

  // ---- the counted list ----

  datatype Extension = Extension(num: byte, fields: seq<Field>)

  predicate CheckOk(x: Extension) {
    |x.fields| == x.num && AllGood(FieldOk, x.fields)
  }

  function EncodedLen(x: Extension): nat {
    1 + TotalLen(FieldLen, x.fields)
  }

  function Bytes(x: Extension): seq<byte> {
    CountedBytes(FieldBytes, x.num, x.fields)
  }

  function Parse(s: seq<byte>): Parsed<Extension> {
    var (n, xs) :- ParseCounted(ParseField, s);
    Ok(n, Extension(s[0], xs))
  }

  lemma ParseStable(s: seq<byte>, t: seq<byte>)
    ensures Parse(s) != Truncated ==> Parse(s + t) == Parse(s)
  {
    hide ParseField, FieldBytes, FieldOk, Stable, Within, Canonical, RoundTrips, ParseCounted;
    FieldLaws();
    CountedStable(ParseField, s, t);
  }

  lemma ParseCanonical(s: seq<byte>)
    requires Parse(s).Ok?
    ensures var r := Parse(s); r.n <= |s| && CheckOk(r.obj) && Bytes(r.obj) == s[..r.n]
  {
    hide ParseField, FieldBytes, FieldOk, Stable, Within, Canonical, RoundTrips, ParseCounted;
    FieldLaws();
    CountedCanonical(ParseField, FieldBytes, FieldOk, s);
  }

  lemma ParseUndoesBytes(x: Extension, t: seq<byte>)
    requires CheckOk(x)
    ensures |Bytes(x)| == EncodedLen(x) && Parse(Bytes(x) + t) == Ok(EncodedLen(x), x)
  {
    hide ParseField, FieldBytes, FieldOk, FieldLen, Stable, Within, Canonical, RoundTrips, ParseCounted, EncodeMany;
    FieldLaws();
    CountedRoundTrips(ParseField, FieldBytes, FieldOk, x.num, x.fields, t);
    forall y | y in x.fields ensures |FieldBytes(y)| == FieldLen(y) {
      FieldBytesLength(y);
    }
    ManyLength(FieldBytes, FieldLen, x.fields);
  }

  ghost predicate Layout(s: seq<byte>, x: Extension) {
    |s| >= 1 && x.num == s[0] && |x.fields| == s[0] && LaidOut(FieldLayout, FieldLen, s[1..], x.fields)
  }

  lemma BytesLaidOut(x: Extension)
    requires CheckOk(x)
    ensures Layout(Bytes(x), x)
  {
    hide LaidOut, FieldLayout, FieldBytes, FieldLen, FieldOk, EncodeMany;
    forall i | 0 <= i < |x.fields|
      ensures var y := x.fields[i]; |FieldBytes(y)| == FieldLen(y) && FieldLayout(FieldBytes(y), y)
    {
      AllOk(x.fields, i);
      FieldBytesLength(x.fields[i]);
      FieldLaidOut(x.fields[i]);
    }
    ManyLaidOut(FieldLayout, FieldLen, FieldBytes, x.fields);
    assert Bytes(x)[1..] == EncodeMany(FieldBytes, x.fields);
  }

  lemma ParsedLaidOut(s: seq<byte>)
    ensures var r := Parse(s); r.Ok? ==> r.n <= |s| && Layout(s[..r.n], r.obj)
  {
    hide Parse, Bytes, Layout, CheckOk;
    if Parse(s).Ok? {
      ParseCanonical(s);
      BytesLaidOut(Parse(s).obj);
    }
  }

  /** What is not accepted is truncated. */
  lemma NeverInvalid(s: seq<byte>)
    ensures ParseField(s) == Truncated <==> |s| < 2 || |s| < 2 + s[1] as int
    ensures ParseField(s) != Invalid && Parse(s) != Invalid
  {
    hide ParseMany;
    if |s| >= 1 {
      ManyNeverInvalid(ParseField, s[0], s[1..]);
    }
  }

  lemma PrefixIsTruncated(x: Extension, k: nat)
    requires CheckOk(x) && k < EncodedLen(x)
    ensures |Bytes(x)| == EncodedLen(x) && Parse(Bytes(x)[..k]) == Truncated
  {
    hide Parse, Bytes;
    ParseUndoesBytes(x, []);
    var p, q := Bytes(x)[..k], Bytes(x)[k..];
    assert p + q == Bytes(x) == Bytes(x) + [];
    ParseStable(p, q);
    if Parse(p).Ok? {
      ParseCanonical(p);
    }
  }

  lemma NoFields()
    ensures EncodeMany(FieldBytes, []) == []
  {
  }

  lemma AllOk(xs: seq<Field>, i: nat)
    requires AllGood(FieldOk, xs) && i < |xs|
    ensures FieldOk(xs[i])
  {
  }

  /** Encoding returns the encoded length when it fits and every count agrees, and writes nowhere else. */
  method Encode(out: array<byte>, off: nat, avail: nat, x: Extension) returns (w: int)
    requires off + avail <= out.Length
    modifies out
    ensures w == if !CheckOk(x) then -1 else if avail < EncodedLen(x) then -2 else EncodedLen(x)
    ensures SameOutside(old(out[..]), out[..], off, avail)
    ensures w >= 0 ==> Holds(out, old(out[..]), off, Bytes(x)) && Layout(out[off..off + w], x)
  {
    hide Holds, SameOutside, FieldBytes, FieldLen, FieldOk, EncodeMany, Written, AllGood, Layout;
    NoFields();
    ghost var o := out[..];
    HoldsNothing(out, off, avail);
    if !CheckOk(x) {
      return -1;
    }
    var xs := x.fields;
    assert [] + [x.num] == [x.num];
    w := Emit(out, off, avail, 0, [x.num], o, []);
    if w < 0 {
      return -2;
    }
    ghost var sent := [x.num];
    assert xs[..0] == [] && sent + [] == sent && xs[0..] == xs;
    for idx := 0 to |xs|
      invariant Holds(out, o, off, sent) && SameOutside(o, out[..], off, avail)
      invariant sent == [x.num] + EncodeMany(FieldBytes, xs[..idx]) && w == |sent| <= avail
      invariant EncodedLen(x) == w + TotalLen(FieldLen, xs[idx..])
    {
      HoldsIs(out, o, off, sent);
      AllOk(xs, idx);
      var r := EncodeField(out, off + w, avail - w, xs[idx]);
      assert xs[idx..][1..] == xs[idx + 1..];
      if r < 0 {
        OutsideNested(o, out[..], off, avail, sent);
        return r;
      }
      FieldBytesLength(xs[idx]);
      HoldsNested(out, o, off, sent, FieldBytes(xs[idx]));
      sent := sent + FieldBytes(xs[idx]);
      HoldsWithin(out, o, off, sent, avail);
      ManyAppend(FieldBytes, xs[..idx], xs[idx]);
      assert xs[..idx] + [xs[idx]] == xs[..idx + 1];
      w := w + r;
    }
    assert xs[..|xs|] == xs;
    HoldsSlice(out, o, off, Bytes(x));
    BytesLaidOut(x);
  }

  method ParseInto(input: seq<byte>) returns (r: Parsed<Extension>)
    ensures r == Parse(input)
    ensures r.Ok? ==> r.n <= |input| && Layout(input[..r.n], r.obj)
  {
    hide ParseField, Prepended, ParseMany, Within, Layout;
    ParsedLaidOut(input);
    FieldWithin();
    if |input| < 1 {
      return Truncated;
    }
    var num := input[0];
    var ptr: nat, xs: seq<Field> := 1, [];
    ghost var whole := ParseMany(ParseField, num, input[1..]);
    PrependedNothing(whole);
    for idx := 0 to num
      invariant 1 <= ptr <= |input|
      invariant whole == Prepended(ptr - 1, xs, ParseMany(ParseField, num - idx, input[ptr..]))
    {
      PrependedStep(ParseField, num - idx, input[ptr..], ptr - 1, xs);
      var e := ParseFieldInto(input[ptr..]);
      if e.IsFailure() {
        return e.PropagateFailure();
      }
      WithinAt(ParseField, input[ptr..]);
      assert Drop(input[ptr..], e.n) == input[ptr + e.n..];
      ptr, xs := ptr + e.n, xs + [e.obj];
    }
    PrependedEnd(ParseField, input[ptr..], ptr - 1, xs);
    r := Ok(ptr, Extension(num, xs));
  }

  lemma FieldWithin()
    ensures Within(ParseField)
  {
  }
}
