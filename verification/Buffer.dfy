/** Bounded writing into a caller's buffer, as the Trunnel encoders do it. */
module Buffer {
  import opened Wire

  /** The buffer `o` with `bs` written at `off`. */
  ghost function Written(o: seq<byte>, off: nat, bs: seq<byte>): seq<byte>
    requires off + |bs| <= |o|
  {
    o[..off] + bs + o[off + |bs|..]
  }

  /** `out` is the original buffer `o` with exactly `bs` written at `off`. */
  ghost predicate Holds(out: array<byte>, o: seq<byte>, off: nat, bs: seq<byte>)
    reads out
  {
    off + |bs| <= |o| && out[..] == Written(o, off, bs)
  }

  /** Nothing outside the `avail` bytes at `off` differs. */
  ghost predicate SameOutside(o: seq<byte>, o': seq<byte>, off: nat, avail: nat) {
    |o'| == |o| && off + avail <= |o| && o'[..off] == o[..off] && o'[off + avail..] == o[off + avail..]
  }

  lemma HoldsIs(out: array<byte>, o: seq<byte>, off: nat, bs: seq<byte>)
    requires Holds(out, o, off, bs)
    ensures off + |bs| <= |o| == out.Length && out[..] == Written(o, off, bs)
  {
  }

  /** What was written can be read back where it was written. */
  lemma HoldsSlice(out: array<byte>, o: seq<byte>, off: nat, bs: seq<byte>)
    requires Holds(out, o, off, bs)
    ensures off + |bs| <= out.Length && out[off..off + |bs|] == bs
  {
  }

  lemma HoldsNothing(out: array<byte>, off: nat, avail: nat)
    requires off + avail <= out.Length
    ensures Holds(out, out[..], off, []) && SameOutside(out[..], out[..], off, avail)
  {
  }

  lemma HoldsWithin(out: array<byte>, o: seq<byte>, off: nat, bs: seq<byte>, avail: nat)
    requires Holds(out, o, off, bs) && |bs| <= avail && off + avail <= |o|
    ensures SameOutside(o, out[..], off, avail)
  {
  }

  /** A nested encoder continues where its caller stopped. */
  lemma HoldsNested(out: array<byte>, o: seq<byte>, off: nat, done: seq<byte>, bs: seq<byte>)
    requires off + |done| <= |o| && Holds(out, Written(o, off, done), off + |done|, bs)
    ensures Holds(out, o, off, done + bs)
  {
  }

  lemma OutsideNested(o: seq<byte>, o': seq<byte>, off: nat, avail: nat, done: seq<byte>)
    requires |done| <= avail && off + avail <= |o|
    requires SameOutside(Written(o, off, done), o', off + |done|, avail - |done|)
    ensures SameOutside(o, o', off, avail)
  {
    var m := Written(o, off, done);
    assert m[..off] == o[..off] && m[off + avail..] == o[off + avail..];
    assert o'[..off] == o'[..off + |done|][..off] && m[..off] == m[..off + |done|][..off];
  }

  /**
   The block every field is written by: unless fewer than `|bs|` bytes are left, copy them and
   advance. A negative result is "truncated", with the buffer as it was.
   */
  method Emit(out: array<byte>, off: nat, avail: nat, written: nat, bs: seq<byte>,
              ghost o: seq<byte>, ghost done: seq<byte>) returns (w: int)
    requires off + avail <= out.Length && Holds(out, o, off, done) && written == |done| <= avail
    modifies out
    ensures if |bs| <= avail - written then w == written + |bs| && Holds(out, o, off, done + bs)
            else w == -2 && Holds(out, o, off, done)
    ensures SameOutside(o, out[..], off, avail)
  {
    if avail - written < |bs| {
      HoldsWithin(out, o, off, done, avail);
      return -2;
    }
    for i := 0 to |bs|
      invariant out[..] == Written(o, off, done + bs[..i])
    {
      out[off + written + i] := bs[i];
    }
    assert bs[..|bs|] == bs;
    HoldsWithin(out, o, off, done + bs, avail);
    w := written + |bs|;
  }

  /** A length field written earlier gets its final value. */
  method Patch(out: array<byte>, off: nat, ghost avail: nat, at: nat, bs: seq<byte>, ghost o: seq<byte>,
               ghost done: seq<byte>)
    requires off + avail <= out.Length && Holds(out, o, off, done) && at + |bs| <= |done| <= avail
    modifies out
    ensures Holds(out, o, off, done[..at] + bs + done[at + |bs|..])
    ensures SameOutside(o, out[..], off, avail)
  {
    for i := 0 to |bs|
      invariant out[..] == Written(o, off, done[..at] + bs[..i] + done[at + i..])
    {
      out[off + at + i] := bs[i];
    }
    assert bs[..|bs|] == bs;
    HoldsWithin(out, o, off, done[..at] + bs + done[at + |bs|..], avail);
  }
}
