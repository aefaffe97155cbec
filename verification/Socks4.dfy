/**
 socks5.c: the SOCKS4 client request, with NUL-terminated strings and the SOCKS4a host name behind an
 impossible address.
 */
module Socks4 {
  import opened Wire
  import opened Buffer
  import S5 = Socks5

  /** A C string's bytes before its terminator. */
  type text = s: seq<byte> | 0 !in s

  datatype Pointer = Null | Str(s: text)

  datatype Request = Request(version: byte, command: byte, port: u16, addr: u32, username: Pointer, hostname: Pointer)

  predicate IsCommand(c: byte) {
    c == S5.CMD_BIND || c == S5.CMD_CONNECT || c == S5.CMD_RESOLVE || c == S5.CMD_RESOLVE_PTR
  }

  /** Addresses 0.0.0.1 to 0.0.0.255 announce a host name. */
  predicate HasHostname(addr: u32) {
    1 <= addr <= 255
  }

  predicate CheckOk(x: Request) {
    x.version == 4 && IsCommand(x.command) && x.username.Str? && (HasHostname(x.addr) ==> x.hostname.Str?)
  }

  function Terminated(p: Pointer): seq<byte> {
    if p.Str? then p.s + [0] else []
  }

  function Header(x: Request): seq<byte> {
    [x.version, x.command] + Be16(x.port) + Be32(x.addr)
  }

  function Hostname(x: Request): seq<byte> {
    if HasHostname(x.addr) then Terminated(x.hostname) else []
  }

  function Bytes(x: Request): seq<byte> {
    Header(x) + Terminated(x.username) + Hostname(x)
  }

  function EncodedLen(x: Request): nat {
    8 + |Terminated(x.username)| + |Hostname(x)|
  }

  function Settled(x: Request): Request {
    x.(hostname := if HasHostname(x.addr) then x.hostname else Null)
  }

  predicate Good(x: Request) {
    CheckOk(x) && x == Settled(x)
  }

  /** memchr: where the first NUL is, or the length if there is none. */
  function FirstZero(s: seq<byte>): (n: nat)
    ensures n <= |s| && 0 !in s[..n] && (n < |s| ==> s[n] == 0)
  {
    if s == [] || s[0] == 0 then 0
    else
      var n := FirstZero(s[1..]);
      assert s[..n + 1] == [s[0]] + s[1..][..n];
      n + 1
  }

  function ParseText(s: seq<byte>): Parsed<Pointer> {
    var n := FirstZero(s);
    if n == |s| then Truncated else Ok(n + 1, Str(s[..n]))
  }

  function Parse(s: seq<byte>): Parsed<Request> {
    if |s| < 1 then Truncated
    else if s[0] != 4 then Invalid
    else if |s| < 2 then Truncated
    else if !IsCommand(s[1]) then Invalid
    else if |s| < 8 then Truncated
    else
      var addr := Get32(s[4..]);
      var (n, username) :- ParseText(s[8..]);
      var x := Request(4, s[1], Get16(s[2..]), addr, username, Null);
      if HasHostname(addr) then
        var (m, hostname) :- ParseText(Drop(s, 8 + n));
        Ok(8 + n + m, x.(hostname := hostname))
      else Ok(8 + n, x)
  }

  lemma {:induction false} FirstZeroUnique(s: seq<byte>, n: nat)
    requires n < |s| && s[n] == 0 && 0 !in s[..n]
    ensures FirstZero(s) == n
  {
    if n > 0 {
      assert s[0] in s[..n] && s[1..][..n - 1] == s[..n][1..];
      FirstZeroUnique(s[1..], n - 1);
    }
  }

  lemma TextStable(s: seq<byte>, t: seq<byte>)
    ensures ParseText(s) != Truncated ==> ParseText(s + t) == ParseText(s)
    ensures ParseText(s).Ok? ==> ParseText(s).n <= |s|
  {
    var n := FirstZero(s);
    if n < |s| {
      assert (s + t)[..n] == s[..n];
      FirstZeroUnique(s + t, n);
    }
  }

  lemma TextCanonical(s: seq<byte>)
    requires ParseText(s).Ok?
    ensures var r := ParseText(s); r.n <= |s| && r.obj.Str? && Terminated(r.obj) == s[..r.n]
  {
  }

  lemma TextUndone(p: Pointer, t: seq<byte>)
    requires p.Str?
    ensures ParseText(Terminated(p) + t) == Ok(|Terminated(p)|, p)
  {
    var s := Terminated(p) + t;
    assert s[..|p.s|] == p.s;
    FirstZeroUnique(s, |p.s|);
  }

  lemma ParseStable(s: seq<byte>, t: seq<byte>)
    ensures Parse(s) != Truncated ==> Parse(s + t) == Parse(s)
  {
    hide ParseText, Drop, Get32, Get16;
    if |s| >= 8 {
      assert (s + t)[4..] == s[4..] + t && (s + t)[2..] == s[2..] + t && (s + t)[8..] == s[8..] + t;
      Get32Prefix(s[4..], t);
      Get16Prefix(s[2..], t);
      TextStable(s[8..], t);
      if ParseText(s[8..]).Ok? {
        var n := ParseText(s[8..]).n;
        DropAppend(s, t, 8 + n);
        TextStable(Drop(s, 8 + n), t);
      }
    }
  }

  lemma ParseCanonical(s: seq<byte>)
    requires Parse(s).Ok?
    ensures var r := Parse(s); r.n <= |s| && Good(r.obj) && Bytes(r.obj) == s[..r.n]
  {
    hide ParseText, Terminated, Header, Get16, Get32;
    var r := Parse(s);
    HeaderCanonical(s, r.obj);
    TextCanonical(s[8..]);
    var n := ParseText(s[8..]).n;
    assert s[..8 + n] == s[..8] + s[8..][..n];
    if HasHostname(r.obj.addr) {
      TextCanonical(s[8 + n..]);
      assert s[..r.n] == s[..8 + n] + s[8 + n..][..r.n - 8 - n];
    }
  }

  lemma HeaderCanonical(s: seq<byte>, x: Request)
    requires |s| >= 8 && x.version == s[0] && x.command == s[1] && x.port == Get16(s[2..]) && x.addr == Get32(s[4..])
    ensures Header(x) == s[..8]
  {
    hide Be16, Be32, Get16, Get32;
    Be16RoundTrip(0, s[2..]);
    Be32RoundTrip(0, s[4..]);
    assert s[..8] == [s[0], s[1]] + s[2..][..2] + s[4..][..4];
  }

  lemma HeaderUndone(x: Request, t: seq<byte>)
    ensures var s := Header(x) + t;
            |Header(x)| == 8 && s[0] == x.version && s[1] == x.command && Get16(s[2..]) == x.port &&
            Get32(s[4..]) == x.addr
  {
    hide Be16, Be32, Get16, Get32;
    var s := Header(x) + t;
    Be16RoundTrip(x.port, Be32(x.addr) + t);
    Be32RoundTrip(x.addr, t);
    assert s[2..] == Be16(x.port) + (Be32(x.addr) + t) && s[4..] == Be32(x.addr) + t;
  }

  lemma ParseUndoesBytes(x: Request, t: seq<byte>)
    requires CheckOk(x)
    ensures |Bytes(x)| == EncodedLen(x) && Parse(Bytes(x) + t) == Ok(EncodedLen(x), Settled(x))
  {
    hide ParseText, Terminated, Header, Get16, Get32;
    var u, h := Terminated(x.username), Hostname(x);
    var s := Header(x) + (u + (h + t));
    assert Bytes(x) + t == s;
    HeaderUndone(x, u + (h + t));
    assert s[8..] == u + (h + t) && Drop(s, 8 + |u|) == h + t;
    TextUndone(x.username, h + t);
    if HasHostname(x.addr) {
      TextUndone(x.hostname, t);
    }
  }

  /** The verdict "invalid" depends on nothing after the offending byte. */
  lemma InvalidExactly(s: seq<byte>)
    ensures Parse(s) == Invalid <==>
            || (|s| >= 1 && s[0] != 4)
            || (|s| >= 2 && s[0] == 4 && s[1] !in {1, 2, 240, 241})
  {
  }

  /** Where everything is in the bytes `s` of `x`, by position; a name follows addresses 0.0.0.1 to 0.0.0.255. */
  ghost predicate Layout(s: seq<byte>, x: Request) {
    && |s| >= 9 && s[0] == 4 && s[1] in {1, 2, 240, 241} && x.version == s[0] && x.command == s[1]
    && x.port == s[2] as int * 0x100 + s[3]
    && x.addr == s[4] as int * 0x100_0000 + s[5] as int * 0x1_0000 + s[6] as int * 0x100 + s[7]
    && x.username.Str?
    && if 1 <= x.addr <= 255 then x.hostname.Str? && s[8..] == x.username.s + [0] + x.hostname.s + [0]
       else s[8..] == x.username.s + [0]
  }

  lemma BytesLaidOut(x: Request)
    requires CheckOk(x)
    ensures |Bytes(x)| == EncodedLen(x) && Layout(Bytes(x), x)
  {
    hide Header, Get16, Get32;
    var t := Terminated(x.username) + Hostname(x);
    var s := Header(x) + t;
    assert Bytes(x) == s;
    HeaderUndone(x, t);
    BigEndian16(0, s[2..]);
    BigEndian32(0, s[4..]);
    assert s[8..] == t;
    assert HasHostname(x.addr) ==> t == x.username.s + [0] + x.hostname.s + [0];
  }

  lemma ParsedLaidOut(s: seq<byte>)
    ensures var r := Parse(s); r.Ok? ==> r.n <= |s| && Layout(s[..r.n], r.obj)
  {
    hide Parse, Bytes, Layout;
    if Parse(s).Ok? {
      ParseCanonical(s);
      BytesLaidOut(Parse(s).obj);
    }
  }

  lemma PrefixIsTruncated(x: Request, k: nat)
    requires CheckOk(x) && k < EncodedLen(x)
    ensures |Bytes(x)| == EncodedLen(x) && Parse(Bytes(x)[..k]) == Truncated
  {
    hide Parse, Bytes;
    ParseUndoesBytes(x, []);
    var p, q := Bytes(x)[..k], Bytes(x)[k..];
    assert p + q == Bytes(x) == Bytes(x) + [];
    ParseStable(p, q);
    if Parse(p).Ok? {
      ParseCanonical(p);
    }
  }

  method EncodeHeader(out: array<byte>, off: nat, avail: nat, x: Request, ghost o: seq<byte>) returns (w: int)
    requires off + avail <= out.Length && out[..] == o
    modifies out
    ensures SameOutside(o, out[..], off, avail)
    ensures if avail < 8 then w == -2 else w == 8 == |Header(x)| && Holds(out, o, off, Header(x))
  {
    hide Holds, SameOutside, Be16, Be32;
    HoldsNothing(out, off, avail);
    assert [] + [x.version] == [x.version] && [x.version] + [x.command] == [x.version, x.command];
    w := Emit(out, off, avail, 0, [x.version], o, []);
    if w < 0 {
      return;
    }
    w := Emit(out, off, avail, w, [x.command], o, [x.version]);
    if w < 0 {
      return;
    }
    w := Emit(out, off, avail, w, Be16(x.port), o, [x.version, x.command]);
    if w < 0 {
      return;
    }
    w := Emit(out, off, avail, w, Be32(x.addr), o, [x.version, x.command] + Be16(x.port));
  }

  method Encode(out: array<byte>, off: nat, avail: nat, x: Request) returns (r: int)
    requires off + avail <= out.Length
    modifies out
    ensures r == if !CheckOk(x) then -1 else if avail < EncodedLen(x) then -2 else EncodedLen(x)
    ensures SameOutside(old(out[..]), out[..], off, avail)
    ensures r >= 0 ==> Holds(out, old(out[..]), off, Bytes(x)) && Layout(out[off..off + r], x)
  {
    hide Holds, SameOutside, Header, Layout;
    ghost var o := out[..];
    HoldsNothing(out, off, avail);
    if !CheckOk(x) {
      return -1;
    }
    var w := EncodeHeader(out, off, avail, x, o);
    if w < 0 {
      return -2;
    }
    w := Emit(out, off, avail, w, x.username.s + [0], o, Header(x));
    if w < 0 {
      return -2;
    }
    ghost var done := Header(x) + Terminated(x.username);
    assert done + [] == done;
    if 1 <= x.addr <= 255 {
      w := Emit(out, off, avail, w, x.hostname.s + [0], o, done);
    }
    r := w;
    if r >= 0 {
      HoldsSlice(out, o, off, Bytes(x));
      BytesLaidOut(x);
    }
  }

  method ParseInto(input: seq<byte>) returns (r: Parsed<Request>)
    ensures r == Parse(input)
    ensures r.Ok? ==> r.n <= |input| && Layout(input[..r.n], r.obj)
  {
    hide Get16, Get32, Layout;
    ParsedLaidOut(input);
    var ptr, remaining := 0, |input|;
    if remaining < 1 {
      return Truncated;
    }
    var version := input[ptr];
    remaining, ptr := remaining - 1, ptr + 1;
    if !(version == 4) {
      return Invalid;
    }
    if remaining < 1 {
      return Truncated;
    }
    var command := input[ptr];
    remaining, ptr := remaining - 1, ptr + 1;
    if !IsCommand(command) {
      return Invalid;
    }
    if remaining < 2 {
      return Truncated;
    }
    var port := Get16(input[ptr..]);
    remaining, ptr := remaining - 2, ptr + 2;
    if remaining < 4 {
      return Truncated;
    }
    var addr := Get32(input[ptr..]);
    remaining, ptr := remaining - 4, ptr + 4;
    var eos := FirstZero(input[ptr..]);
    if eos == remaining {
      return Truncated;
    }
    var obj := Request(version, command, port, addr, Str(input[ptr..][..eos]), Null);
    remaining, ptr := remaining - (eos + 1), ptr + (eos + 1);
    if 1 <= addr <= 255 {
      eos := FirstZero(input[ptr..]);
      if eos == remaining {
        return Truncated;
      }
      obj := obj.(hostname := Str(input[ptr..][..eos]));
      remaining, ptr := remaining - (eos + 1), ptr + (eos + 1);
    }
    assert ptr + remaining == |input|;
    r := Ok(|input| - remaining, obj);
  }
}
