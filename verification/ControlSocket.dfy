/** ControlSocket.swift: CRLF framing over recv, and the assembly of a reply from lines. */
module ControlSocket {

  datatype Option<+T> = None | Some(value: T)

  // ---- lines in a byte stream ----

  const CRLF := "\r\n"

  predicate CrlfAt(s: string, i: nat) {
    i + 1 < |s| && s[i] == '\r' && s[i + 1] == '\n'
  }

  /** Where the first CRLF starts, or the length if there is none. */
  function FirstCrlf(s: string): (n: nat)
    ensures n <= |s| && (n < |s| ==> CrlfAt(s, n))
    ensures forall i: nat | i < n :: !CrlfAt(s, i)
  {
    if s == "" || CrlfAt(s, 0) then 0
    else
      var n := FirstCrlf(s[1..]);
      assert forall i: nat | 0 < i < n + 1 :: CrlfAt(s, i) ==> CrlfAt(s[1..], i - 1);
      n + 1
  }

  predicate OneLine(s: string) {
    FirstCrlf(s) == |s|
  }

  /** The complete lines of a stream, split at successive first CRLFs. */
  function Lines(s: string): seq<string> {
    var n := FirstCrlf(s);
    if n == |s| then [] else [s[..n]] + Lines(s[n + 2..])
  }

  /** What follows the last complete line. */
  function Rest(s: string): string {
    var n := FirstCrlf(s);
    if n == |s| then s else Rest(s[n + 2..])
  }

  /** The stream that carries these lines. */
  function Sent(lines: seq<string>): string {
    if lines == [] then "" else lines[0] + CRLF + Sent(lines[1..])
  }

  lemma FirstCrlfUnique(s: string, n: nat)
    requires CrlfAt(s, n) && forall i: nat | i < n :: !CrlfAt(s, i)
    ensures FirstCrlf(s) == n
  {
    assert FirstCrlf(s) < n ==> !CrlfAt(s, FirstCrlf(s));
  }

  /** A line sent with its CRLF comes back as itself, even when it ends in a bare CR. */
  lemma FirstCrlfOfLine(l: string, t: string)
    requires OneLine(l)
    ensures FirstCrlf(l + CRLF + t) == |l|
  {
    var s := l + CRLF + t;
    forall i: nat | i < |l| ensures !CrlfAt(s, i) {
      assert !CrlfAt(l, i);
    }
    FirstCrlfUnique(s, |l|);
  }

  lemma LinesStep(l: string, t: string)
    requires OneLine(l)
    ensures Lines(l + CRLF + t) == [l] + Lines(t) && Rest(l + CRLF + t) == Rest(t)
  {
    hide CrlfAt;
    var s := l + CRLF + t;
    FirstCrlfOfLine(l, t);
    assert s[..|l|] == l && s[|l| + 2..] == t;
  }

  /** A line is what stands before a carriage return with a line feed behind it; what has none is no line yet. */
  lemma LinesAre(l: string, t: string)
    requires forall i | 0 < i < |l| :: !(l[i - 1] == '\r' && l[i] == '\n')
    ensures Lines(l + "\r\n" + t) == [l] + Lines(t) && Rest(l + "\r\n" + t) == Rest(t)
    ensures Lines(l) == [] && Rest(l) == l
  {
    forall i: nat ensures !CrlfAt(l, i) {
      assert i + 1 < |l| ==> l[i + 1 - 1] == l[i];
    }
    LinesStep(l, t);
  }

  lemma LinesStepAppend(l: string, t: string, b: string)
    requires OneLine(l)
    ensures Lines(l + CRLF + t + b) == [l] + Lines(t + b) && Rest(l + CRLF + t + b) == Rest(t + b)
  {
    hide CrlfAt, OneLine, FirstCrlf, Lines, Rest;
    LinesStep(l, t + b);
    assert l + CRLF + t + b == l + CRLF + (t + b);
  }

  /** A stream with a complete line is that line, its CRLF, and a shorter stream. */
  lemma FirstLine(s: string)
    requires FirstCrlf(s) < |s|
    ensures var n := FirstCrlf(s); n + 2 <= |s| && OneLine(s[..n]) && s == s[..n] + CRLF + s[n + 2..]
  {
    hide OneLine;
    PrefixIsOneLine(s);
    CrlfSlice(s, FirstCrlf(s));
  }

  lemma CrlfSlice(s: string, n: nat)
    requires CrlfAt(s, n)
    ensures n + 2 <= |s| && s == s[..n] + CRLF + s[n + 2..]
  {
    assert s[n..n + 2] == CRLF;
  }

  /** Lines can be split off in any portions: what more bytes add depends only on the rest. */
  lemma {:induction false} LinesAppend(a: string, b: string)
    ensures Lines(a + b) == Lines(a) + Lines(Rest(a) + b)
    ensures Rest(a + b) == Rest(Rest(a) + b)
    decreases |a|
  {
    hide CrlfAt, OneLine;
    var n := FirstCrlf(a);
    if n < |a| {
      FirstLine(a);
      var l, t := a[..n], a[n + 2..];
      LinesAppend(t, b);
      LinesStepAppend(l, t, b);
    }
  }

  lemma {:induction false} LinesOfSent(lines: seq<string>, t: string)
    requires forall l | l in lines :: OneLine(l)
    ensures Lines(Sent(lines) + t) == lines + Lines(t) && Rest(Sent(lines) + t) == Rest(t)
  {
    hide FirstCrlf, CrlfAt, Lines, Rest, OneLine;
    if lines == [] {
      assert Sent(lines) + t == t;
    } else {
      var l, more := lines[0], Sent(lines[1..]) + t;
      assert Sent(lines) + t == l + CRLF + more;
      LinesStep(l, more);
      LinesOfSent(lines[1..], t);
      assert lines == [l] + lines[1..];
    }
  }

  /** Nothing is lost by splitting. */
  lemma {:induction false} SentLines(s: string)
    ensures Sent(Lines(s)) + Rest(s) == s
    ensures forall l | l in Lines(s) :: OneLine(l)
    decreases |s|
  {
    hide CrlfAt, OneLine;
    var n := FirstCrlf(s);
    if n < |s| {
      FirstLine(s);
      var l, t := s[..n], s[n + 2..];
      SentLines(t);
      SentCons(l, Lines(t));
      assert Sent(Lines(s)) + Rest(s) == l + CRLF + (Sent(Lines(t)) + Rest(t));
    }
  }

  lemma SentCons(l: string, lines: seq<string>)
    ensures Sent([l] + lines) == l + CRLF + Sent(lines)
  {
    assert ([l] + lines)[1..] == lines;
  }

  lemma PrefixIsOneLine(s: string)
    ensures OneLine(s[..FirstCrlf(s)])
  {
    var p := s[..FirstCrlf(s)];
    assert forall i: nat | i < |p| :: CrlfAt(p, i) ==> CrlfAt(s, i);
  }

  lemma {:induction false} SentAppend(a: seq<string>, l: string)
    ensures Sent(a + [l]) == Sent(a) + l + CRLF
  {
    if a == [] {
      assert a + [l] == [l] && [l][1..] == [];
    } else {
      assert (a + [l])[1..] == a[1..] + [l];
      SentAppend(a[1..], l);
    }
  }

  // ---- the socket ----

  /**
   What happens at one turn of the read loop: recv delivers bytes, has nothing yet, reports the end of
   the connection or an error, or the deadline has passed before recv is called.
   */
  datatype Turn = Chunk(data: string) | Retry | Closed | Failed | Expired

  datatype LineRead = Line(text: string) | Timeout | ConnectionClosed | ReadFailed

  /** The bytes of a whole script. */
  function Arriving(turns: seq<Turn>): string {
    if turns == [] then "" else (if turns[0].Chunk? then turns[0].data else "") + Arriving(turns[1..])
  }

  /** The bytes that arrive before the first turn that ends a wait. */
  function Heard(turns: seq<Turn>): string {
    if turns == [] then ""
    else match turns[0]
      case Chunk(data) => data + Heard(turns[1..])
      case Retry => Heard(turns[1..])
      case _ => ""
  }

  /** How a wait for a line ends if none arrives; a script that runs out leaves the deadline to pass. */
  function Ending(turns: seq<Turn>): LineRead {
    if turns == [] then Timeout
    else match turns[0]
      case Chunk(_) => Ending(turns[1..])
      case Retry => Ending(turns[1..])
      case Closed => ConnectionClosed
      case Failed => ReadFailed
      case Expired => Timeout
  }

  /** The lines that complete before a wait would end: how recv portions the bytes plays no part. */
  function Coming(buffer: string, turns: seq<Turn>): seq<string> {
    Lines(buffer + Heard(turns))
  }

  lemma ComingStep(buffer: string, turns: seq<Turn>)
    requires turns != [] && (turns[0].Chunk? || turns[0].Retry?)
    ensures Ending(turns) == Ending(turns[1..])
    ensures Coming(buffer, turns) == Coming(if turns[0].Chunk? then buffer + turns[0].data else buffer, turns[1..])
  {
    if turns[0].Chunk? {
      assert buffer + (turns[0].data + Heard(turns[1..])) == buffer + turns[0].data + Heard(turns[1..]);
    }
  }

  /** Handing out a buffered line leaves the others to come. */
  lemma ComingAfter(l: string, buffer: string, turns: seq<Turn>)
    requires OneLine(l)
    ensures Coming(l + CRLF + buffer, turns) == [l] + Coming(buffer, turns)
  {
    LinesStepAppend(l, buffer, Heard(turns));
  }

  lemma EndingIsNoLine(turns: seq<Turn>)
    ensures !Ending(turns).Line?
  {
  }

  lemma NoneComing(buffer: string, turns: seq<Turn>)
    requires Lines(buffer) == [] && (turns == [] || turns[0].Closed? || turns[0].Failed? || turns[0].Expired?)
    ensures Coming(buffer, turns) == []
    ensures Ending(turns) ==
            if turns == [] || turns[0].Expired? then Timeout
            else if turns[0].Closed? then ConnectionClosed
            else ReadFailed
  {
    assert buffer + "" == buffer;
  }

  lemma ArrivingStep(received: string, turns: seq<Turn>)
    requires turns != []
    ensures received + Arriving(turns) ==
            (if turns[0].Chunk? then received + turns[0].data else received) + Arriving(turns[1..])
  {
    var data := if turns[0].Chunk? then turns[0].data else "";
    assert received + (data + Arriving(turns[1..])) == received + data + Arriving(turns[1..]);
  }

  /** Lines handed out so far and bytes kept are together the bytes received. */
  ghost predicate Framed(received: string, returned: seq<string>, buffer: string) {
    received == Sent(returned) + buffer && forall l | l in returned :: OneLine(l)
  }

  /** What was handed out is the beginning of the stream's lines, and the buffer holds exactly the others. */
  lemma FramedLines(received: string, returned: seq<string>, buffer: string)
    requires Framed(received, returned, buffer)
    ensures Lines(received) == returned + Lines(buffer) && Rest(received) == Rest(buffer)
  {
    LinesOfSent(returned, buffer);
  }

  /**
   Two sockets that hear the same stream, in whatever portions and with whatever interruptions, hand out
   the same lines.
   */
  lemma SameStreamSameLines(received: string, more: string, returned: seq<string>, buffer: string,
                            returned': seq<string>, buffer': string)
    requires Framed(received, returned, buffer) && Framed(received + more, returned', buffer')
    ensures returned <= Lines(received + more) && returned' <= Lines(received + more)
    ensures |returned| <= |returned'| ==> returned == returned'[..|returned|]
    ensures Lines(buffer) == [] && Lines(buffer') == [] ==> returned' == returned + Lines(buffer + more)
  {
    hide Framed, Lines, Rest, FirstCrlf;
    FramedLines(received, returned, buffer);
    FramedLines(received + more, returned', buffer');
    LinesAppend(received, more);
    LinesAppend(buffer, more);
    assert returned' + Lines(buffer') == returned + Lines(buffer) + Lines(Rest(buffer) + more);
  }

  lemma FramedAppend(received: string, returned: seq<string>, buffer: string, data: string)
    requires Framed(received, returned, buffer)
    ensures Framed(received + data, returned, buffer + data)
  {
  }

  lemma FramedExtract(received: string, returned: seq<string>, l: string, t: string)
    requires Framed(received, returned, l + CRLF + t) && OneLine(l)
    ensures Framed(received, returned + [l], t)
  {
    hide OneLine, Sent;
    SentAppend(returned, l);
    assert Sent(returned) + (l + CRLF + t) == Sent(returned) + l + CRLF + t;
  }

  // ---- where a reply ends ----

  /** The reader's state after one more line: inside a data block or not, or the reply is complete. */
  function After(inDataBlock: bool, line: string): Option<bool> {
    if inDataBlock then Some(line != ".")
    else if |line| >= 4 && line[3] == '+' then Some(true)
    else if |line| >= 4 && line[3] == '-' then Some(false)
    else None
  }

  function Reading(lines: seq<string>): Option<bool> {
    if lines == [] then Some(false)
    else
      var before := Reading(lines[..|lines| - 1]);
      if before.None? then None else After(before.value, lines[|lines| - 1])
  }

  /** Complete, and not complete any earlier. */
  predicate IsReply(lines: seq<string>) {
    lines != [] && Reading(lines).None? && Reading(lines[..|lines| - 1]).Some?
  }

  lemma ReadingNext(lines: seq<string>, line: string)
    requires Reading(lines).Some?
    ensures Reading(lines + [line]) == After(Reading(lines).value, line)
    ensures Reading(lines + [line]).None? ==> IsReply(lines + [line])
  {
    assert (lines + [line])[..|lines|] == lines;
  }

  lemma {:induction false} CompleteStaysComplete(lines: seq<string>, k: nat)
    requires k <= |lines| && Reading(lines[..k]).None?
    ensures Reading(lines).None?
    decreases |lines|
  {
    if k == |lines| {
      assert lines[..k] == lines;
    } else {
      var p := lines[..|lines| - 1];
      assert p[..k] == lines[..k];
      CompleteStaysComplete(p, k);
    }
  }

  /** A stream of lines begins with at most one reply. */
  lemma OneReply(a: seq<string>, b: seq<string>, lines: seq<string>)
    requires IsReply(a) && IsReply(b) && a <= lines && b <= lines
    ensures a == b
  {
    if |a| < |b| {
      NotBefore(a, b);
    } else if |b| < |a| {
      NotBefore(b, a);
    }
  }

  lemma NotBefore(a: seq<string>, b: seq<string>)
    requires IsReply(a) && |a| < |b| && a <= b
    ensures !IsReply(b)
  {
    var p := b[..|b| - 1];
    assert p[..|a|] == a;
    CompleteStaysComplete(p, |a|);
  }

  datatype ReplyRead = Complete(lines: seq<string>) | Incomplete(why: LineRead)

  class Socket {
    var readBuffer: string
    /** The turns to come; the clock and the peer decide them. */
    var pending: seq<Turn>
    ghost var received: string
    ghost var returned: seq<string>

    ghost predicate Valid()
      reads this
    {
      Framed(received, returned, readBuffer)
    }

    ghost function ToCome(): seq<string>
      reads this
    {
      Coming(readBuffer, pending)
    }

    constructor (turns: seq<Turn>)
      ensures Valid() && pending == turns && readBuffer == "" && received == "" && returned == []
    {
      readBuffer, pending := "", turns;
      received, returned := "", [];
    }

    method ExtractLine() returns (line: Option<string>)
      requires Valid()
      modifies this`readBuffer, this`returned
      ensures Valid()
      ensures if Lines(old(readBuffer)) == []
              then line == None && readBuffer == old(readBuffer) && returned == old(returned)
              else line == Some(Lines(old(readBuffer))[0]) && returned == old(returned) + [line.value] &&
                   OneLine(line.value) && old(readBuffer) == line.value + "\r\n" + readBuffer
    {
      var crlf := FirstCrlf(readBuffer);
      if crlf == |readBuffer| {
        return None;
      }
      FirstLine(readBuffer);
      var lineData := readBuffer[..crlf];
      FramedExtract(received, returned, lineData, readBuffer[crlf + 2..]);
      readBuffer := readBuffer[crlf + 2..];
      returned := returned + [lineData];
      line := Some(lineData);
    }

    /** One turn's bytes go to the end of the buffer. */
    method Append(data: string)
      requires Valid()
      modifies this`readBuffer, this`received
      ensures Valid() && readBuffer == old(readBuffer) + data && received == old(received) + data
    {
      FramedAppend(received, returned, readBuffer, data);
      readBuffer, received := readBuffer + data, received + data;
    }

    method NextTurn()
      requires Valid() && pending != []
      modifies this`pending
      ensures Valid() && pending == old(pending)[1..]
    {
      pending := pending[1..];
    }

    /** The next line of the stream, unless the wait ends first; then no complete line is being held back. */
    method ReadLine() returns (r: LineRead)
      requires Valid()
      modifies this
      ensures Valid()
      ensures if old(ToCome()) == []
              then !r.Line? && r == Ending(old(pending)) && returned == old(returned) && Lines(readBuffer) == []
              else r.Line? && old(ToCome()) == [r.text] + ToCome() && Ending(pending) == Ending(old(pending)) &&
                   returned == old(returned) + [r.text]
      ensures received + Arriving(pending) == old(received) + Arriving(old(pending)) && old(received) <= received
      ensures Lines(old(readBuffer)) != [] ==> pending == old(pending)
      ensures r.Line? ==> |pending| < |old(pending)| || (pending == old(pending) && |readBuffer| < |old(readBuffer)|)
    {
      hide Lines, Framed, OneLine, Coming, Ending, Arriving;
      EndingIsNoLine(pending);
      var line := ExtractLine();
      if line.Some? {
        ComingAfter(line.value, readBuffer, pending);
        return Line(line.value);
      }
      while pending != [] && !pending[0].Expired?
        invariant Valid()
        invariant Lines(readBuffer) == [] && returned == old(returned)
        invariant ToCome() == old(ToCome()) && Ending(pending) == Ending(old(pending))
        invariant received + Arriving(pending) == old(received) + Arriving(old(pending)) && old(received) <= received
        invariant |pending| <= |old(pending)|
        decreases |pending|
      {
        var turn := pending[0];
        ArrivingStep(received, pending);
        if turn.Retry? {
          ComingStep(readBuffer, pending);
          NextTurn();
          continue;
        }
        if turn.Failed? || turn.Closed? {
          NoneComing(readBuffer, pending);
          NextTurn();
          return if turn.Failed? then ReadFailed else ConnectionClosed;
        }
        ComingStep(readBuffer, pending);
        NextTurn();
        Append(turn.data);
        line := ExtractLine();
        if line.Some? {
          ComingAfter(line.value, readBuffer, pending);
          return Line(line.value);
        }
      }
      NoneComing(readBuffer, pending);
      if pending != [] {
        ArrivingStep(received, pending);
        NextTurn();
      }
      r := Timeout;
    }

    /**
     Exactly one reply is taken off the stream. If the connection fails or times out in the middle,
     the lines already taken are gone and the rest of the reply is left for the next caller.
     */
    method ReadReply() returns (r: ReplyRead)
      requires Valid()
      modifies this
      ensures Valid()
      ensures r.Complete? ==>
                IsReply(r.lines) && old(ToCome()) == r.lines + ToCome() && returned == old(returned) + r.lines
      ensures r.Incomplete? ==>
                Reading(old(ToCome())).Some? && r.why == Ending(old(pending)) && returned == old(returned + ToCome())
      ensures received + Arriving(pending) == old(received) + Arriving(old(pending)) && old(received) <= received
    {
      hide Lines, Framed, Reading, IsReply, Arriving, Coming, Ending;
      var lines: seq<string> := [];
      var inDataBlock := false;
      ReadingNone();
      assert old(ToCome()) == lines + ToCome() && returned == old(returned) + lines;
      while true
        invariant Valid()
        invariant Reading(lines) == Some(inDataBlock) && returned == old(returned) + lines
        invariant old(ToCome()) == lines + ToCome() && Ending(pending) == Ending(old(pending))
        invariant received + Arriving(pending) == old(received) + Arriving(old(pending)) && old(received) <= received
        decreases |pending|, |readBuffer|
      {
        var l := ReadLine();
        if !l.Line? {
          assert lines + [] == lines;
          return Incomplete(l);
        }
        var line := l.text;
        assert lines + ([line] + ToCome()) == lines + [line] + ToCome();
        assert old(returned) + lines + [line] == old(returned) + (lines + [line]);
        ReadingNext(lines, line);
        lines := lines + [line];
        if inDataBlock {
          if line == "." {
            inDataBlock := false;
          }
          continue;
        }
        if |line| >= 4 {
          var separator := line[3];
          if separator == '+' {
            inDataBlock := true;
            continue;
          } else if separator == '-' {
            continue;
          } else if separator == ' ' {
            break;
          }
        }
        break;
      }
      r := Complete(lines);
    }
  }

  lemma ReadingNone()
    ensures Reading([]) == Some(false)
  {
  }
}
