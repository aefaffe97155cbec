/**
 socks5.c: the SOCKS5 client request (section 4 of RFC 1928) with Tor's two commands, and the domain name
 inside it.
 */
module Socks5 {
  import opened Wire
  import opened Buffer

  const CMD_CONNECT: byte := 1
  const CMD_BIND: byte := 2
  const CMD_UDP_ASSOCIATE: byte := 3
  const CMD_RESOLVE: byte := 240
  const CMD_RESOLVE_PTR: byte := 241
  const ATYPE_IPV4: byte := 1
  const ATYPE_DOMAINNAME: byte := 3
  const ATYPE_IPV6: byte := 4

  // ---- domainname ----

  datatype Domain = NoDomain | Domain(len: byte, name: seq<byte>)

  predicate DomainOk(x: Domain) {
    x.Domain? && |x.name| == x.len
  }

  function DomainBytes(x: Domain): seq<byte> {
    if x.Domain? then [x.len] + x.name else []
  }

  function ParseDomain(s: seq<byte>): Parsed<Domain> {
    if |s| < 1 || |s| < 1 + s[0] as int then Truncated else Ok(1 + s[0] as int, Domain(s[0], s[1..1 + s[0] as int]))
  }

  method EncodeDomain(out: array<byte>, off: nat, avail: nat, x: Domain) returns (r: int)
    requires off + avail <= out.Length
    modifies out
    ensures r == if !DomainOk(x) then -1 else if avail < |DomainBytes(x)| then -2 else |DomainBytes(x)|
    ensures SameOutside(old(out[..]), out[..], off, avail)
    ensures r >= 0 ==> Holds(out, old(out[..]), off, DomainBytes(x))
  {
    hide Holds, SameOutside;
    ghost var o := out[..];
    HoldsNothing(out, off, avail);
    if x.NoDomain? || |x.name| != x.len {
      return -1;
    }
    assert [] + [x.len] == [x.len];
    var w := Emit(out, off, avail, 0, [x.len], o, []);
    if w < 0 {
      return -2;
    }
    r := Emit(out, off, avail, w, x.name, o, [x.len]);
  }

  method ParseDomainInto(input: seq<byte>) returns (r: Parsed<Domain>)
    ensures r == ParseDomain(input)
  {
    var ptr, remaining := 0, |input|;
    if remaining < 1 {
      return Truncated;
    }
    var len := input[ptr];
    remaining, ptr := remaining - 1, ptr + 1;
    if remaining < len {
      return Truncated;
    }
    var name := input[ptr..ptr + len as int];
    ptr, remaining := ptr + len, remaining - len;
    assert ptr + remaining == |input|;
    r := Ok(|input| - remaining, Domain(len, name));
  }

  // ---- socks5_client_request ----

  /** The struct, with every arm of the union. */
  datatype Request = Request(
    version: byte,
    command: byte,
    reserved: byte,
    atype: byte,
    ipv4: u32,
    ipv6: bytes16,
    domain: Domain,
    port: u16)

  predicate IsCommand(c: byte) {
    c == CMD_BIND || c == CMD_CONNECT || c == CMD_RESOLVE || c == CMD_RESOLVE_PTR || c == CMD_UDP_ASSOCIATE
  }

  predicate CheckOk(x: Request) {
    x.version == 5 && IsCommand(x.command) && x.reserved == 0 &&
    (x.atype == ATYPE_IPV4 || x.atype == ATYPE_IPV6 || (x.atype == ATYPE_DOMAINNAME && DomainOk(x.domain)))
  }

  /** The bytes of the active arm. */
  function Arm(x: Request): seq<byte> {
    if x.atype == ATYPE_IPV4 then Be32(x.ipv4)
    else if x.atype == ATYPE_IPV6 then x.ipv6
    else DomainBytes(x.domain)
  }

  function Bytes(x: Request): seq<byte> {
    [x.version, x.command, x.reserved, x.atype] + Arm(x) + Be16(x.port)
  }

  function EncodedLen(x: Request): nat {
    6 + |Arm(x)|
  }

  /** The same request with inactive arms as a fresh struct has them. */
  function Settled(x: Request): Request {
    x.(ipv4 := if x.atype == ATYPE_IPV4 then x.ipv4 else 0,
       ipv6 := if x.atype == ATYPE_IPV6 then x.ipv6 else Zeros(16),
       domain := if x.atype == ATYPE_DOMAINNAME then x.domain else NoDomain)
  }

  predicate Good(x: Request) {
    CheckOk(x) && x == Settled(x)
  }

  /** The union's arm, put into a request that has its tag already. */
  function ParseArm(x: Request, t: seq<byte>): Parsed<Request> {
    if x.atype == ATYPE_IPV4 then if |t| < 4 then Truncated else Ok(4, x.(ipv4 := Get32(t)))
    else if x.atype == ATYPE_IPV6 then if |t| < 16 then Truncated else Ok(16, x.(ipv6 := t[..16]))
    else if x.atype == ATYPE_DOMAINNAME then
      var (n, d) :- ParseDomain(t);
      Ok(n, x.(domain := d))
    else Invalid
  }

  /** The format; each constrained byte is judged as soon as it is there, whatever else is still missing. */
  function Parse(s: seq<byte>): Parsed<Request> {
    if |s| < 1 then Truncated
    else if s[0] != 5 then Invalid
    else if |s| < 2 then Truncated
    else if !IsCommand(s[1]) then Invalid
    else if |s| < 3 then Truncated
    else if s[2] != 0 then Invalid
    else if |s| < 4 then Truncated
    else
      var (n, x) :- ParseArm(Request(5, s[1], 0, s[3], 0, Zeros(16), NoDomain, 0), s[4..]);
      var t := Drop(s, 4 + n);
      if |t| < 2 then Truncated else Ok(6 + n, x.(port := Get16(t)))
  }

  lemma ArmStable(x: Request, t: seq<byte>, more: seq<byte>)
    ensures ParseArm(x, t) != Truncated ==> ParseArm(x, t + more) == ParseArm(x, t)
    ensures ParseArm(x, t).Ok? ==> ParseArm(x, t).n <= |t|
  {
    hide Get32;
    if |t| >= 4 {
      Get32Prefix(t, more);
    }
    if |t| >= 16 {
      assert (t + more)[..16] == t[..16];
    }
    if |t| >= 1 && |t| >= 1 + t[0] as int {
      assert (t + more)[1..1 + t[0] as int] == t[1..1 + t[0] as int];
    }
  }

  lemma ParseStable(s: seq<byte>, more: seq<byte>)
    ensures Parse(s) != Truncated ==> Parse(s + more) == Parse(s)
  {
    hide ParseArm, Drop;
    if |s| >= 4 {
      var x := Request(5, s[1], 0, s[3], 0, Zeros(16), NoDomain, 0);
      assert (s + more)[4..] == s[4..] + more;
      ArmStable(x, s[4..], more);
      if ParseArm(x, s[4..]).Ok? {
        DropAppend(s, more, 4 + ParseArm(x, s[4..]).n);
      }
    }
  }

  lemma ArmCanonical(x: Request, t: seq<byte>)
    requires ParseArm(x, t).Ok? && x.ipv4 == 0 && x.ipv6 == Zeros(16) && x.domain == NoDomain
    ensures var r := ParseArm(x, t);
            r.n <= |t| && Arm(r.obj) == t[..r.n] && r.obj == Settled(r.obj) &&
            r.obj == x.(ipv4 := r.obj.ipv4, ipv6 := r.obj.ipv6, domain := r.obj.domain) &&
            (x.atype == ATYPE_IPV4 || x.atype == ATYPE_IPV6 || (x.atype == ATYPE_DOMAINNAME && DomainOk(r.obj.domain)))
  {
    hide Get32, Be32;
    if x.atype == ATYPE_IPV4 {
      Be32RoundTrip(0, t);
    }
  }

  lemma ParseCanonical(s: seq<byte>)
    ensures var r := Parse(s);
            r.Ok? ==> r.n <= |s| && Good(r.obj) && Bytes(r.obj) == s[..r.n] && r.n == EncodedLen(r.obj)
  {
    hide ParseArm, Arm, Be16, Get16, DomainOk;
    var r := Parse(s);
    if r.Ok? {
      var x := Request(5, s[1], 0, s[3], 0, Zeros(16), NoDomain, 0);
      ArmCanonical(x, s[4..]);
      var n := ParseArm(x, s[4..]).n;
      Be16RoundTrip(0, s[4 + n..]);
      ArmOfPort(ParseArm(x, s[4..]).obj, r.obj.port);
      assert s[..r.n] == s[..4] + s[4..][..n] + s[4 + n..][..2];
    }
  }

  lemma ArmOfPort(x: Request, port: u16)
    ensures Arm(x.(port := port)) == Arm(x)
  {
  }

  lemma ArmUndone(x: Request, b: Request, t: seq<byte>)
    requires CheckOk(x) && b == Request(x.version, x.command, x.reserved, x.atype, 0, Zeros(16), NoDomain, 0)
    ensures ParseArm(b, Arm(x) + t) == Ok(|Arm(x)|, Settled(x).(port := 0))
  {
    hide Get32, Be32;
    var a := Arm(x);
    if x.atype == ATYPE_IPV4 {
      Be32RoundTrip(x.ipv4, t);
    } else if x.atype == ATYPE_IPV6 {
      assert (a + t)[..16] == x.ipv6;
    } else {
      assert (a + t)[1..1 + x.domain.len as int] == x.domain.name;
    }
  }

  lemma ParseUndoesBytes(x: Request, t: seq<byte>)
    requires CheckOk(x)
    ensures |Bytes(x)| == EncodedLen(x) && Parse(Bytes(x) + t) == Ok(EncodedLen(x), Settled(x))
  {
    hide ParseArm, Arm, Be16, Get16, DomainOk;
    var s, a, p := Bytes(x) + t, Arm(x), Be16(x.port) + t;
    ArmUndone(x, Request(x.version, x.command, x.reserved, x.atype, 0, Zeros(16), NoDomain, 0), p);
    assert s[4..] == a + p && Drop(s, 4 + |a|) == p;
    Be16RoundTrip(x.port, t);
  }

  /** The parser fills one arm, and leaves the others as a fresh struct has them. */
  lemma OtherArmsBlank(s: seq<byte>)
    requires Parse(s).Ok?
    ensures var x := Parse(s).obj;
            (s[3] != 1 ==> x.ipv4 == 0) && (s[3] != 4 ==> AllZero(x.ipv6)) && (s[3] != 3 ==> x.domain == NoDomain)
  {
    hide AllZero, Get16, Get32;
    ZerosAre(16);
  }

  lemma PrefixIsTruncated(x: Request, k: nat)
    requires CheckOk(x) && k < EncodedLen(x)
    ensures |Bytes(x)| == EncodedLen(x) && Parse(Bytes(x)[..k]) == Truncated
  {
    hide Parse, Bytes;
    ParseUndoesBytes(x, []);
    var p, q := Bytes(x)[..k], Bytes(x)[k..];
    assert p + q == Bytes(x) == Bytes(x) + [];
    ParseStable(p, q);
    ParseCanonical(p);
  }

  /** The verdict "invalid" depends on nothing after the offending byte. */
  lemma InvalidExactly(s: seq<byte>)
    ensures Parse(s) == Invalid <==>
            || (|s| >= 1 && s[0] != 5)
            || (|s| >= 2 && s[0] == 5 && s[1] !in {1, 2, 3, 240, 241})
            || (|s| >= 3 && s[0] == 5 && s[1] in {1, 2, 3, 240, 241} && s[2] != 0)
            || (|s| >= 4 && s[0] == 5 && s[1] in {1, 2, 3, 240, 241} && s[2] == 0 && s[3] !in {1, 3, 4})
  {
  }

  /** Where everything is in the bytes `s` of `x`, by position; the port comes last. */
  ghost predicate Layout(s: seq<byte>, x: Request) {
    && |s| >= 6 && s[0] == 5 && s[1] in {1, 2, 3, 240, 241} && s[2] == 0
    && x.version == s[0] && x.command == s[1] && x.reserved == s[2] && x.atype == s[3]
    && (if s[3] == 1 then
          |s| == 10 && x.ipv4 == s[4] as int * 0x100_0000 + s[5] as int * 0x1_0000 + s[6] as int * 0x100 + s[7]
        else if s[3] == 4 then |s| == 22 && x.ipv6 == s[4..20]
        else s[3] == 3 && |s| == 7 + s[4] as int && x.domain == Domain(s[4], s[5..5 + s[4] as int]))
    && x.port == s[|s| - 2] as int * 0x100 + s[|s| - 1]
  }

  lemma BytesLaidOut(x: Request)
    requires CheckOk(x)
    ensures |Bytes(x)| == EncodedLen(x) && Layout(Bytes(x), Settled(x))
  {
    hide Be16, Be32;
    BigEndian32(x.ipv4, []);
    BigEndian16(x.port, []);
    var s, a := Bytes(x), Arm(x);
    assert s[4..4 + |a|] == a;
    assert x.atype == 1 ==> forall i | 0 <= i < 4 :: s[4 + i] == Be32(x.ipv4)[i];
    assert x.atype == 3 ==> s[5..5 + s[4] as int] == x.domain.name;
  }

  lemma ParsedLaidOut(s: seq<byte>)
    ensures var r := Parse(s); r.Ok? ==> r.n <= |s| && Layout(s[..r.n], r.obj)
  {
    hide Parse, Bytes, Layout;
    ParseCanonical(s);
    if Parse(s).Ok? {
      BytesLaidOut(Parse(s).obj);
    }
  }

  method EncodeHead(out: array<byte>, off: nat, avail: nat, x: Request, ghost o: seq<byte>) returns (w: int)
    requires off + avail <= out.Length && out[..] == o
    modifies out
    ensures SameOutside(o, out[..], off, avail)
    ensures if avail < 4 then w == -2 else w == 4 && Holds(out, o, off, [x.version, x.command, x.reserved, x.atype])
  {
    hide Holds, SameOutside;
    HoldsNothing(out, off, avail);
    assert [] + [x.version] == [x.version];
    w := Emit(out, off, avail, 0, [x.version], o, []);
    if w < 0 {
      return;
    }
    w := Emit(out, off, avail, w, [x.command], o, [x.version]);
    if w < 0 {
      return;
    }
    w := Emit(out, off, avail, w, [x.reserved], o, [x.version] + [x.command]);
    if w < 0 {
      return;
    }
    w := Emit(out, off, avail, w, [x.atype], o, [x.version] + [x.command] + [x.reserved]);
    assert [x.version] + [x.command] + [x.reserved] + [x.atype] == [x.version, x.command, x.reserved, x.atype];
  }

  /** The switch over the union's tag. */
  method EncodeArm(out: array<byte>, off: nat, avail: nat, written: nat, x: Request, ghost o: seq<byte>,
                   ghost done: seq<byte>)
    returns (w: int)
    requires off + avail <= out.Length && Holds(out, o, off, done) && written == |done| <= avail && CheckOk(x)
    modifies out
    ensures SameOutside(o, out[..], off, avail)
    ensures if |Arm(x)| <= avail - written then w == written + |Arm(x)| && Holds(out, o, off, done + Arm(x))
            else w == -2
  {
    hide Holds, SameOutside;
    if x.atype == ATYPE_IPV4 {
      w := Emit(out, off, avail, written, Be32(x.ipv4), o, done);
    } else if x.atype == ATYPE_IPV6 {
      w := Emit(out, off, avail, written, x.ipv6, o, done);
    } else {
      HoldsIs(out, o, off, done);
      w := EncodeDomain(out, off + written, avail - written, x.domain);
      OutsideNested(o, out[..], off, avail, done);
      if w >= 0 {
        HoldsNested(out, o, off, done, DomainBytes(x.domain));
        w := written + w;
      }
    }
  }

  method Encode(out: array<byte>, off: nat, avail: nat, x: Request) returns (r: int)
    requires off + avail <= out.Length
    modifies out
    ensures r == if !CheckOk(x) then -1 else if avail < EncodedLen(x) then -2 else EncodedLen(x)
    ensures SameOutside(old(out[..]), out[..], off, avail)
    ensures r >= 0 ==> Holds(out, old(out[..]), off, Bytes(x)) && Layout(out[off..off + r], Settled(x))
  {
    hide Holds, SameOutside, Arm, Be16, DomainOk, Layout, Settled;
    ghost var o := out[..];
    HoldsNothing(out, off, avail);
    if !CheckOk(x) {
      return -1;
    }
    var w := EncodeHead(out, off, avail, x, o);
    if w < 0 {
      return -2;
    }
    ghost var h := [x.version, x.command, x.reserved, x.atype];
    w := EncodeArm(out, off, avail, w, x, o, h);
    if w < 0 {
      return w;
    }
    r := Emit(out, off, avail, w, Be16(x.port), o, h + Arm(x));
    if r >= 0 {
      HoldsSlice(out, o, off, Bytes(x));
      BytesLaidOut(x);
    }
  }

  method ParseInto(input: seq<byte>) returns (r: Parsed<Request>)
    ensures r == Parse(input)
    ensures r.Ok? ==> r.n <= |input| && Layout(input[..r.n], r.obj)
  {
    hide Get16, Get32, Layout;
    ParsedLaidOut(input);
    var obj := Request(0, 0, 0, 0, 0, Zeros(16), NoDomain, 0);
    var ptr, remaining := 0, |input|;
    if remaining < 1 {
      return Truncated;
    }
    obj := obj.(version := input[ptr]);
    remaining, ptr := remaining - 1, ptr + 1;
    if !(obj.version == 5) {
      return Invalid;
    }
    if remaining < 1 {
      return Truncated;
    }
    obj := obj.(command := input[ptr]);
    remaining, ptr := remaining - 1, ptr + 1;
    if !IsCommand(obj.command) {
      return Invalid;
    }
    if remaining < 1 {
      return Truncated;
    }
    obj := obj.(reserved := input[ptr]);
    remaining, ptr := remaining - 1, ptr + 1;
    if !(obj.reserved == 0) {
      return Invalid;
    }
    if remaining < 1 {
      return Truncated;
    }
    obj := obj.(atype := input[ptr]);
    remaining, ptr := remaining - 1, ptr + 1;
    if obj.atype == ATYPE_IPV4 {
      if remaining < 4 {
        return Truncated;
      }
      obj := obj.(ipv4 := Get32(input[ptr..]));
      remaining, ptr := remaining - 4, ptr + 4;
    } else if obj.atype == ATYPE_IPV6 {
      if remaining < 16 {
        return Truncated;
      }
      obj := obj.(ipv6 := input[ptr..][..16]);
      remaining, ptr := remaining - 16, ptr + 16;
    } else if obj.atype == ATYPE_DOMAINNAME {
      var d := ParseDomainInto(input[ptr..]);
      if d.IsFailure() {
        return d.PropagateFailure();
      }
      obj := obj.(domain := d.obj);
      remaining, ptr := remaining - d.n, ptr + d.n;
    } else {
      return Invalid;
    }
    if remaining < 2 {
      return Truncated;
    }
    obj := obj.(port := Get16(input[ptr..]));
    remaining, ptr := remaining - 2, ptr + 2;
    assert ptr + remaining == |input|;
    r := Ok(|input| - remaining, obj);
  }
}
