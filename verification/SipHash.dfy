/** csiphash.c: SipHash-2-4 as it streams over a message, and as one fold over the padded message. */
module SipHash {

  type octet = bv8

  datatype Regs = Regs(v0: bv64, v1: bv64, v2: bv64, v3: bv64)

  type shift = b: bv8 | b <= 64

  function Plus(x: bv64, y: bv64): bv64 { x + y }

  function Xor(x: bv64, y: bv64): bv64 { x ^ y }

  function Rotate(x: bv64, b: shift): bv64 {
    (x << b) | (x >> (64 - b))
  }

  /** The values of a, b, c, d after the macro, for shifts `s` and `t`. */
  function HalfRound(a: bv64, b: bv64, c: bv64, d: bv64, s: shift, t: shift): (bv64, bv64, bv64, bv64) {
    (Rotate(Plus(a, b), 32), Xor(Rotate(b, s), Plus(a, b)), Plus(c, d), Xor(Rotate(d, t), Plus(c, d)))
  }

  function First(v: Regs): Regs {
    var (a, b, c, d) := HalfRound(v.v0, v.v1, v.v2, v.v3, 13, 16);
    Regs(a, b, c, d)
  }

  function Second(v: Regs): Regs {
    var (a, b, c, d) := HalfRound(v.v2, v.v1, v.v0, v.v3, 17, 21);
    Regs(c, b, a, d)
  }

  function DoubleRound(v: Regs): Regs {
    Second(First(Second(First(v))))
  }

  /** Taking in one word. */
  function Absorb(v: Regs, w: bv64): Regs {
    var u := DoubleRound(v.(v3 := Xor(v.v3, w)));
    u.(v0 := Xor(u.v0, w))
  }

  function Word(s: seq<octet>): bv64
    requires |s| == 8
  {
    (s[0] as bv64) | ((s[1] as bv64) << 8) | ((s[2] as bv64) << 16) | ((s[3] as bv64) << 24) |
    ((s[4] as bv64) << 32) | ((s[5] as bv64) << 40) | ((s[6] as bv64) << 48) | ((s[7] as bv64) << 56)
  }

  function AbsorbAll(v: Regs, s: seq<octet>): Regs
    decreases |s|
  {
    if |s| < 8 then v else AbsorbAll(Absorb(v, Word(s[..8])), s[8..])
  }

  function Zeros(n: nat): (s: seq<octet>)
    ensures |s| == n
  {
    seq(n, _ => 0)
  }

  /** The message, zeros up to the last byte of a word, and there its length modulo 256. */
  function Padded(m: seq<octet>): seq<octet> {
    m + Zeros(7 - |m| % 8) + [(|m| % 0x100) as bv8]
  }

  function Initial(k0: bv64, k1: bv64): Regs {
    Regs(k0 ^ 0x736f6d6570736575, k1 ^ 0x646f72616e646f6d, k0 ^ 0x6c7967656e657261, k1 ^ 0x7465646279746573)
  }

  function Finish(v: Regs): bv64 {
    var u := DoubleRound(DoubleRound(v.(v2 := Xor(v.v2, 0xff))));
    Xor(Xor(Xor(u.v0, u.v1), u.v2), u.v3)
  }

  function Hash(m: seq<octet>, k0: bv64, k1: bv64): bv64 {
    Finish(AbsorbAll(Initial(k0, k1), Padded(m)))
  }

  // ---- the streaming form ----

  method HalfRoundInPlace(a0: bv64, b0: bv64, c0: bv64, d0: bv64, s: shift, t: shift)
    returns (a: bv64, b: bv64, c: bv64, d: bv64)
    ensures (a, b, c, d) == HalfRound(a0, b0, c0, d0, s, t)
  {
    hide Rotate, Plus, Xor;
    a, b, c, d := a0, b0, c0, d0;
    a := Plus(a, b);
    c := Plus(c, d);
    b := Xor(Rotate(b, s), a);
    d := Xor(Rotate(d, t), c);
    a := Rotate(a, 32);
  }

  method DoubleRoundInPlace(v: Regs) returns (u: Regs)
    ensures u == DoubleRound(v)
  {
    hide HalfRound;
    var v0, v1, v2, v3 := v.v0, v.v1, v.v2, v.v3;
    v0, v1, v2, v3 := HalfRoundInPlace(v0, v1, v2, v3, 13, 16);
    v2, v1, v0, v3 := HalfRoundInPlace(v2, v1, v0, v3, 17, 21);
    v0, v1, v2, v3 := HalfRoundInPlace(v0, v1, v2, v3, 13, 16);
    v2, v1, v0, v3 := HalfRoundInPlace(v2, v1, v0, v3, 17, 21);
    u := Regs(v0, v1, v2, v3);
  }

  method SipHash24(m: seq<octet>, k0: bv64, k1: bv64) returns (h: bv64)
    ensures h == Hash(m, k0, k1)
  {
    hide DoubleRound, Word, Padded, Finish, Xor, TailWord, Initial, Blocks, AbsorbAll;
    var last7 := LengthByte(m);
    var v := Initial(k0, k1);
    PaddedTail(m);
    var i;
    v, i := AbsorbBlocks(m, v);
    last7 := Tail(m, i, last7);
    LastBlock(v, Padded(m)[i..]);
    v := v.(v3 := Xor(v.v3, last7));
    v := DoubleRoundInPlace(v);
    v := v.(v0 := Xor(v.v0, last7));
    h := Finishing(v);
  }

  function Blocks(m: seq<octet>): (n: nat)
    ensures n <= |m| < n + 8
  {
    |m| / 8 * 8
  }

  function LengthByte(m: seq<octet>): bv64 {
    ((|m| % 0x100) as bv64) << 56
  }

  /** The loop over whole words. */
  method AbsorbBlocks(m: seq<octet>, start: Regs) returns (v: Regs, i: nat)
    ensures i == Blocks(m) <= |Padded(m)|
    ensures AbsorbAll(start, Padded(m)) == AbsorbAll(v, Padded(m)[i..])
  {
    hide DoubleRound, Word, Padded, Xor;
    v, i := start, 0;
    PaddedLength(m);
    ghost var p := Padded(m);
    assert p[0..] == p;
    ghost var j := 0;
    while i < Blocks(m)
      invariant i == 8 * j <= Blocks(m)
      invariant AbsorbAll(start, p) == AbsorbAll(v, p[i..])
    {
      PaddedBlock(m, i);
      var mi := Word(m[i..i + 8]);
      assert p[i..][8..] == p[i + 8..];
      v := v.(v3 := Xor(v.v3, mi));
      v := DoubleRoundInPlace(v);
      v := v.(v0 := Xor(v.v0, mi));
      i, j := i + 8, j + 1;
    }
  }

  method Finishing(v: Regs) returns (h: bv64)
    ensures h == Finish(v)
  {
    hide DoubleRound, Xor;
    var u := v.(v2 := Xor(v.v2, 0xff));
    u := DoubleRoundInPlace(u);
    u := DoubleRoundInPlace(u);
    h := Xor(Xor(Xor(u.v0, u.v1), u.v2), u.v3);
  }

  /** The last word as the specification of the tail has it. */
  function TailWord(t: seq<octet>, len: bv64): bv64
    requires |t| < 8
  {
    var z := t + Zeros(7 - |t|);
    (z[0] as bv64) | ((z[1] as bv64) << 8) | ((z[2] as bv64) << 16) | ((z[3] as bv64) << 24) |
    ((z[4] as bv64) << 32) | ((z[5] as bv64) << 40) | ((z[6] as bv64) << 48) | len
  }

  /** The switch whose cases fall through from the number of bytes left down to none. */
  method Tail(m: seq<octet>, i: nat, len: bv64) returns (last7: bv64)
    requires i <= |m| < i + 8
    ensures last7 == TailWord(m[i..], len)
  {
    var left := |m| - i;
    last7 := len;
    if left >= 7 { last7 := last7 | ((m[i + 6] as bv64) << 48); }
    if left >= 6 { last7 := last7 | ((m[i + 5] as bv64) << 40); }
    if left >= 5 { last7 := last7 | ((m[i + 4] as bv64) << 32); }
    if left >= 4 { last7 := last7 | ((m[i + 3] as bv64) << 24); }
    if left >= 3 { last7 := last7 | ((m[i + 2] as bv64) << 16); }
    if left >= 2 { last7 := last7 | ((m[i + 1] as bv64) << 8); }
    if left >= 1 { last7 := last7 | (m[i] as bv64); }
  }

  lemma PaddedLength(m: seq<octet>)
    ensures |Padded(m)| == Blocks(m) + 8
  {
  }

  lemma PaddedBlock(m: seq<octet>, i: nat)
    requires i + 8 <= |m|
    ensures |Padded(m)| >= i + 8 && Padded(m)[i..][..8] == m[i..i + 8]
  {
  }

  lemma PaddedTail(m: seq<octet>)
    ensures var i := Blocks(m); |Padded(m)| == i + 8 && Word(Padded(m)[i..]) == TailWord(m[i..], LengthByte(m))
  {
    hide TailWord, Word, LengthByte;
    var i := Blocks(m);
    PaddedEnds(m);
    LastWord(m[i..], (|m| % 0x100) as bv8);
    LengthByteIs(m);
  }

  lemma LengthByteIs(m: seq<octet>)
    ensures LengthByte(m) == (((|m| % 0x100) as bv8) as bv64) << 56
  {
  }

  lemma PaddedEnds(m: seq<octet>)
    ensures var i := Blocks(m);
            |Padded(m)| == i + 8 && Padded(m)[i..] == m[i..] + Zeros(7 - |m[i..]|) + [(|m| % 0x100) as bv8]
  {
  }

  lemma LastWord(t: seq<octet>, last: octet)
    requires |t| < 8
    ensures Word(t + Zeros(7 - |t|) + [last]) == TailWord(t, (last as bv64) << 56)
  {
  }

  lemma LastBlock(v: Regs, s: seq<octet>)
    requires |s| == 8
    ensures AbsorbAll(v, s) == Absorb(v, Word(s))
  {
    assert s[..8] == s;
  }

  // ---- nothing is lost in a step ----

  function Minus(x: bv64, y: bv64): bv64 { x - y }

  lemma PlusIs(x: bv64, y: bv64)
    ensures Plus(x, y) == x + y
  {
  }

  lemma XorIs(x: bv64, y: bv64)
    ensures Xor(x, y) == x ^ y
  {
  }

  lemma MinusIs(x: bv64, y: bv64)
    ensures Minus(x, y) == x - y
  {
  }

  lemma MinusOfSum(x: bv64, y: bv64)
    ensures Minus(x + y, y) == x
  {
  }

  lemma PlusOfDifference(x: bv64, y: bv64)
    ensures Plus(x - y, y) == x
  {
  }

  lemma PlusMinus(x: bv64, y: bv64)
    ensures Minus(Plus(x, y), y) == x
  {
    hide Plus, Minus;
    PlusIs(x, y);
    MinusOfSum(x, y);
  }

  lemma MinusPlus(x: bv64, y: bv64)
    ensures Plus(Minus(x, y), y) == x
  {
    hide Plus, Minus;
    MinusIs(x, y);
    PlusOfDifference(x, y);
  }

  lemma XorTwice(x: bv64, y: bv64)
    ensures Xor(Xor(x, y), y) == x
  {
  }

  /** The shifts the rounds use. */
  predicate RoundShift(b: shift) {
    b == 13 || b == 16 || b == 17 || b == 21
  }

  lemma RotateThere(x: bv64, b: shift)
    requires RoundShift(b) || b == 32
    ensures Rotate(Rotate(x, b), 64 - b) == x
  {
    hide Rotate;
    if b == 13 { Rotate13(x); } else if b == 16 { Rotate16(x); } else if b == 17 { Rotate17(x); }
    else if b == 21 { Rotate21(x); } else { Rotate32(x); }
  }

  lemma RotateAndBack(x: bv64, b: shift)
    requires RoundShift(b) || b == 32
    ensures Rotate(Rotate(x, 64 - b), b) == x
  {
    hide Rotate;
    if b == 13 { Rotate13(x); } else if b == 16 { Rotate16(x); } else if b == 17 { Rotate17(x); }
    else if b == 21 { Rotate21(x); } else { Rotate32(x); }
  }

  lemma Rotate13(x: bv64)
    ensures Rotate(Rotate(x, 13), 51) == x && Rotate(Rotate(x, 51), 13) == x
  {
  }

  lemma Rotate16(x: bv64)
    ensures Rotate(Rotate(x, 16), 48) == x && Rotate(Rotate(x, 48), 16) == x
  {
  }

  lemma Rotate17(x: bv64)
    ensures Rotate(Rotate(x, 17), 47) == x && Rotate(Rotate(x, 47), 17) == x
  {
  }

  lemma Rotate21(x: bv64)
    ensures Rotate(Rotate(x, 21), 43) == x && Rotate(Rotate(x, 43), 21) == x
  {
  }

  lemma Rotate32(x: bv64)
    ensures Rotate(Rotate(x, 32), 32) == x
  {
  }

  function HalfRoundBack(a: bv64, b: bv64, c: bv64, d: bv64, s: shift, t: shift): (bv64, bv64, bv64, bv64) {
    var sum := Rotate(a, 32);
    var b0, d0 := Rotate(Xor(b, sum), 64 - s), Rotate(Xor(d, c), 64 - t);
    (Minus(sum, b0), b0, Minus(c, d0), d0)
  }

  lemma HalfRoundUndone(a: bv64, b: bv64, c: bv64, d: bv64, s: shift, t: shift)
    requires RoundShift(s) && RoundShift(t)
    ensures var (a', b', c', d') := HalfRound(a, b, c, d, s, t); HalfRoundBack(a', b', c', d', s, t) == (a, b, c, d)
  {
    hide Rotate, Plus, Minus, Xor;
    RotateThere(Plus(a, b), 32);
    XorTwice(Rotate(b, s), Plus(a, b));
    XorTwice(Rotate(d, t), Plus(c, d));
    RotateThere(b, s);
    RotateThere(d, t);
    PlusMinus(a, b);
    PlusMinus(c, d);
  }

  lemma HalfRoundReached(a: bv64, b: bv64, c: bv64, d: bv64, s: shift, t: shift)
    requires RoundShift(s) && RoundShift(t)
    ensures var (a', b', c', d') := HalfRoundBack(a, b, c, d, s, t); HalfRound(a', b', c', d', s, t) == (a, b, c, d)
  {
    hide Rotate, Plus, Minus, Xor;
    var sum := Rotate(a, 32);
    var b0, d0 := Rotate(Xor(b, sum), 64 - s), Rotate(Xor(d, c), 64 - t);
    RotateThere(a, 32);
    RotateAndBack(Xor(b, sum), s);
    RotateAndBack(Xor(d, c), t);
    XorTwice(b, sum);
    XorTwice(d, c);
    MinusPlus(sum, b0);
    MinusPlus(c, d0);
  }

  function FirstBack(v: Regs): Regs {
    var (a, b, c, d) := HalfRoundBack(v.v0, v.v1, v.v2, v.v3, 13, 16);
    Regs(a, b, c, d)
  }

  function SecondBack(v: Regs): Regs {
    var (a, b, c, d) := HalfRoundBack(v.v2, v.v1, v.v0, v.v3, 17, 21);
    Regs(c, b, a, d)
  }

  function DoubleRoundBack(v: Regs): Regs {
    FirstBack(SecondBack(FirstBack(SecondBack(v))))
  }

  lemma HalvesUndone(v: Regs)
    ensures FirstBack(First(v)) == v && SecondBack(Second(v)) == v
    ensures First(FirstBack(v)) == v && Second(SecondBack(v)) == v
  {
    hide HalfRound, HalfRoundBack, Rotate, Plus, Minus, Xor;
    HalfRoundUndone(v.v0, v.v1, v.v2, v.v3, 13, 16);
    HalfRoundUndone(v.v2, v.v1, v.v0, v.v3, 17, 21);
    HalfRoundReached(v.v0, v.v1, v.v2, v.v3, 13, 16);
    HalfRoundReached(v.v2, v.v1, v.v0, v.v3, 17, 21);
  }

  lemma DoubleRoundUndone(v: Regs)
    ensures DoubleRoundBack(DoubleRound(v)) == v && DoubleRound(DoubleRoundBack(v)) == v
  {
    hide First, Second, FirstBack, SecondBack;
    HalvesUndone(v);
    HalvesUndone(First(v));
    HalvesUndone(Second(First(v)));
    HalvesUndone(First(Second(First(v))));
    HalvesUndone(SecondBack(v));
    HalvesUndone(FirstBack(SecondBack(v)));
    HalvesUndone(SecondBack(FirstBack(SecondBack(v))));
  }

  function AbsorbBack(v: Regs, w: bv64): Regs {
    var u := DoubleRoundBack(v.(v0 := Xor(v.v0, w)));
    u.(v3 := Xor(u.v3, w))
  }

  /** For a fixed word, taking it in is a bijection on the 256 bits of state. */
  lemma AbsorbUndone(v: Regs, w: bv64)
    ensures AbsorbBack(Absorb(v, w), w) == v && Absorb(AbsorbBack(v, w), w) == v
  {
    hide DoubleRound, DoubleRoundBack, Xor;
    var u := v.(v3 := Xor(v.v3, w));
    DoubleRoundUndone(u);
    XorTwice(DoubleRound(u).v0, w);
    XorTwice(v.v3, w);
    var x := v.(v0 := Xor(v.v0, w));
    DoubleRoundUndone(x);
    XorTwice(DoubleRoundBack(x).v3, w);
    XorTwice(v.v0, w);
  }

  /**
   The finalization, for every message and key: the result is the xor of four words, and two double rounds
   back from them stands the state that took in the padded message, with 0xff in its third word.
   */
  lemma FinishUndone(m: seq<octet>, k0: bv64, k1: bv64) returns (u: Regs)
    ensures Hash(m, k0, k1) == Xor(Xor(Xor(u.v0, u.v1), u.v2), u.v3)
    ensures var v := DoubleRoundBack(DoubleRoundBack(u));
            v.(v2 := Xor(v.v2, 0xff)) == AbsorbAll(Initial(k0, k1), Padded(m))
  {
    hide DoubleRound, DoubleRoundBack, AbsorbAll, Initial, Padded, Xor;
    var v := AbsorbAll(Initial(k0, k1), Padded(m));
    var w := v.(v2 := Xor(v.v2, 0xff));
    u := DoubleRound(DoubleRound(w));
    DoubleRoundUndone(DoubleRound(w));
    DoubleRoundUndone(w);
    XorTwice(v.v2, 0xff);
  }

  /** The padding: the message, zeros, and in the last byte of the first word that has room for it the length. */
  lemma PaddedIs(m: seq<octet>)
    ensures var p := Padded(m);
            && |p| % 8 == 0 && |m| < |p| <= |m| + 8
            && p[..|m|] == m && (forall i | |m| <= i < |p| - 1 :: p[i] == 0) && p[|p| - 1] == (|m| % 256) as bv8
  {
    PaddedLength(m);
    assert |Padded(m)| % 8 == 0;
  }

  /** Words are little-endian. */
  lemma WordIs(s: seq<octet>)
    requires |s| == 8
    ensures Word(s) & 0xff == s[0] as bv64 && (Word(s) >> 8) & 0xff == s[1] as bv64
    ensures (Word(s) >> 16) & 0xff == s[2] as bv64 && (Word(s) >> 24) & 0xff == s[3] as bv64
    ensures (Word(s) >> 32) & 0xff == s[4] as bv64 && (Word(s) >> 40) & 0xff == s[5] as bv64
    ensures (Word(s) >> 48) & 0xff == s[6] as bv64 && Word(s) >> 56 == s[7] as bv64
  {
  }

  // ---- two published values, for the key 00 to 0f: of no bytes, and of the bytes 00 to 0e ----

  lemma RoundsOfNothing()
    ensures Initial(0x0706050403020100, 0x0f0e0d0c0b0a0908) ==
            Regs(0x7469686173716475, 0x6b617f6d656e6665, 0x6b7f62616d677361, 0x7b6b696e727e6c7b)
    ensures DoubleRound(Regs(0x7469686173716475, 0x6b617f6d656e6665, 0x6b7f62616d677361, 0x7b6b696e727e6c7b)) ==
            Regs(0x75126fd44af190b6, 0x084235164f06142b, 0x37b04f9f8026831d, 0x1b4678cde8253231)
    ensures DoubleRound(Regs(0x75126fd44af190b6, 0x084235164f06142b, 0x37b04f9f802683e2, 0x1b4678cde8253231)) ==
            Regs(0x3abfd9623238d0a7, 0xb9354b5807b0cd1e, 0xae109fa2ba56082a, 0x58dcf8f2cf5b8028)
    ensures DoubleRound(Regs(0x3abfd9623238d0a7, 0xb9354b5807b0cd1e, 0xae109fa2ba56082a, 0x58dcf8f2cf5b8028)) ==
            Regs(0xe738d0dfdc9b2453, 0x214ac5771e0c4cd2, 0xe2ea71f68a57ef6d, 0x56f7bf1995ce89dd)
  {
  }

  lemma HashOfNothing()
    ensures Hash([], 0x0706050403020100, 0x0f0e0d0c0b0a0908) == 0x726fdb47dd0e0e31
  {
    hide DoubleRound, AbsorbAll, Initial;
    RoundsOfNothing();
    var p := Padded([]);
    assert p == [0, 0, 0, 0, 0, 0, 0, 0];
    LastBlock(Initial(0x0706050403020100, 0x0f0e0d0c0b0a0908), p);
  }

  lemma RoundsOfFifteen()
    ensures DoubleRound(Regs(0x7469686173716475, 0x6b617f6d656e6665, 0x6b7f62616d677361, 0x7c6d6c6a717c6d7b)) ==
            Regs(0x4d07749cdd0858e0, 0x0d52f6f62a4f59a4, 0x634cb3577b01fd3d, 0xa5224d6f55c7d9c8)
    ensures DoubleRound(Regs(0x4a017198de0a59e0, 0x0d52f6f62a4f59a4, 0x634cb3577b01fd3d, 0xaa2c40635ecdd0c0)) ==
            Regs(0x338bbea7645fb759, 0x414fc3fb98efe374, 0xccf13ea527b9f4bd, 0x5293f5da84008f82)
    ensures DoubleRound(Regs(0x3c85b3ab6f55be51, 0x414fc3fb98efe374, 0xccf13ea527b9f442, 0x5293f5da84008f82)) ==
            Regs(0xb6c3fbdecc2ae4b4, 0x1638c86adc6b3cf0, 0x28b8b6ab62553d46, 0xc9465e86ec43eb95)
    ensures DoubleRound(Regs(0xb6c3fbdecc2ae4b4, 0x1638c86adc6b3cf0, 0x28b8b6ab62553d46, 0xc9465e86ec43eb95)) ==
            Regs(0xf6bcd53893fecff1, 0x54b9964c7ea0d937, 0x1b38329c099bb55a, 0x1814bb89ad7be679)
  {
  }

  lemma HashOfFifteen()
    ensures Hash([0, 1, 2, 3, 4, 5, 6, 7, 8, 9, 10, 11, 12, 13, 14], 0x0706050403020100, 0x0f0e0d0c0b0a0908) ==
            0xa129ca6149be45e5
  {
    hide DoubleRound, AbsorbAll, Initial, Padded;
    RoundsOfNothing();
    RoundsOfFifteen();
    var v := Initial(0x0706050403020100, 0x0f0e0d0c0b0a0908);
    var m: seq<octet> := [0, 1, 2, 3, 4, 5, 6, 7, 8, 9, 10, 11, 12, 13, 14];
    PaddedFifteen(m);
    var p := Padded(m);
    FirstBlock(v, p);
    LastBlock(Absorb(v, Word(p[..8])), p[8..]);
  }

  lemma PaddedFifteen(m: seq<octet>)
    requires m == [0, 1, 2, 3, 4, 5, 6, 7, 8, 9, 10, 11, 12, 13, 14]
    ensures |Padded(m)| == 16
    ensures Padded(m)[..8] == [0, 1, 2, 3, 4, 5, 6, 7] && Padded(m)[8..] == [8, 9, 10, 11, 12, 13, 14, 15]
  {
  }

  lemma FirstBlock(v: Regs, s: seq<octet>)
    requires |s| >= 8
    ensures AbsorbAll(v, s) == AbsorbAll(Absorb(v, Word(s[..8])), s[8..])
  {
  }

  /** Different states stay different, whatever the rest of the message is. */
  lemma {:induction false} AbsorbAllInjective(v: Regs, u: Regs, s: seq<octet>)
    ensures AbsorbAll(v, s) == AbsorbAll(u, s) <==> v == u
    decreases |s|
  {
    hide Absorb, AbsorbBack, Word;
    if |s| >= 8 {
      var w := Word(s[..8]);
      AbsorbUndone(v, w);
      AbsorbUndone(u, w);
      AbsorbAllInjective(Absorb(v, w), Absorb(u, w), s[8..]);
    }
  }
}
