/** ControlProtocolParser.swift, parseReply: from raw lines to a reply, and the rendering it undoes. */
module ControlReply {
  import opened ControlSocket

  // ---- integers as Swift's Int(_:) reads them ----

  predicate IsDigit(c: char) {
    '0' <= c <= '9'
  }

  function Digits(s: string): Option<int> {
    if s == "" || !IsDigit(s[|s| - 1]) then None
    else
      var d := s[|s| - 1] as int - '0' as int;
      if |s| == 1 then Some(d)
      else
        var more := Digits(s[..|s| - 1]);
        if more.None? then None else Some(10 * more.value + d)
  }

  /** An optional sign and at least one digit: three characters may be a signed two-digit number. */
  function Int(s: string): Option<int> {
    if s != "" && (s[0] == '+' || s[0] == '-') then
      var d := Digits(s[1..]);
      if d.None? then None else Some(if s[0] == '-' then -d.value else d.value)
    else Digits(s)
  }

  /** The first three characters of `line` write `n`: three digits, or a sign and two digits. */
  ghost predicate Writes(line: string, n: int) {
    && |line| >= 3 && '0' <= line[1] <= '9' && '0' <= line[2] <= '9'
    && var tens, ones := line[1] as int - '0' as int, line[2] as int - '0' as int;
       if line[0] == '+' then n == 10 * tens + ones
       else if line[0] == '-' then n == -10 * tens - ones
       else '0' <= line[0] <= '9' && n == 100 * (line[0] as int - '0' as int) + 10 * tens + ones
  }

  lemma IntOfThree(line: string, n: int)
    requires |line| >= 3
    ensures Int(line[..3]) == Some(n) <==> Writes(line, n)
  {
    hide Digits;
    var a, b, c := line[0], line[1], line[2];
    DigitsAppend([], a);
    DigitsAppend([], b);
    DigitsAppend([a], b);
    DigitsAppend([b], c);
    DigitsAppend([a, b], c);
    assert line[..3] == [a, b, c] && [a, b, c][1..] == [b, c];
    assert [] + [a] == [a] && [] + [b] == [b] && [a] + [b] == [a, b] && [b] + [c] == [b, c];
    assert [a, b] + [c] == [a, b, c];
  }

  /** One more digit on the right. */
  lemma DigitsAppend(s: string, c: char)
    ensures !('0' <= c <= '9') ==> Digits(s + [c]) == None
    ensures '0' <= c <= '9' ==>
              Digits(s + [c]) ==
              if s == "" then Some(c as int - '0' as int)
              else if Digits(s).None? then None
              else Some(10 * Digits(s).value + (c as int - '0' as int))
  {
    assert (s + [c])[..|s|] == s;
  }

  // ---- parsing ----

  datatype Reply = Reply(statusCode: int, lines: seq<string>, data: Option<string>)

  datatype InvalidResponse =
    | EmptyReply
    | LineTooShort(line: string)
    | InvalidStatusCode(code: string)
    | InvalidSeparator(separator: char)
    | NoStatusCode

  datatype Result<+T> = Ok(value: T) | Err(error: InvalidResponse)

  /** The mutable locals of the loop. */
  datatype State = State(
    lines: seq<string>,
    data: Option<string>,
    statusCode: Option<int>,
    inDataBlock: bool,
    dataLines: seq<string>)

  const START := State([], None, None, false, [])

  function Joined(lines: seq<string>): string {
    if lines == [] then ""
    else if |lines| == 1 then lines[0]
    else lines[0] + "\n" + Joined(lines[1..])
  }

  function Unstuffed(line: string): string {
    if line != "" && line[0] == '.' then line[1..] else line
  }

  function Separator(line: string): char
    requires |line| >= 3
  {
    if |line| > 3 then line[3] else ' '
  }

  function Content(line: string): string {
    if |line| > 4 then line[4..] else ""
  }

  function InBlock(p: State, line: string): State {
    if line == "." then p.(inDataBlock := false, data := Some(Joined(p.dataLines)))
    else p.(dataLines := p.dataLines + [Unstuffed(line)])
  }

  /** The first status code stays; the content is added. */
  function Noted(p: State, code: string, content: string): State {
    p.(statusCode := if p.statusCode.None? then Int(code) else p.statusCode, lines := p.lines + [content])
  }

  function Status(p: State, line: string): Result<State> {
    if |line| < 3 then Err(LineTooShort(line))
    else if Int(line[..3]).None? then Err(InvalidStatusCode(line[..3]))
    else
      var q := Noted(p, line[..3], Content(line));
      if Separator(line) == '+' then Ok(q.(inDataBlock := true, dataLines := []))
      else if Separator(line) == '-' || Separator(line) == ' ' then Ok(q)
      else Err(InvalidSeparator(Separator(line)))
  }

  function Run(p: State, raw: seq<string>): Result<State>
    decreases |raw|
  {
    if raw == [] then Ok(p)
    else if p.inDataBlock then Run(InBlock(p, raw[0]), raw[1..])
    else match Status(p, raw[0])
      case Ok(q) => Run(q, raw[1..])
      case Err(e) => Err(e)
  }

  function Parse(raw: seq<string>): Result<Reply> {
    if raw == [] then Err(EmptyReply)
    else match Run(START, raw)
      case Err(e) => Err(e)
      case Ok(p) => if p.statusCode.None? then Err(NoStatusCode) else Ok(Reply(p.statusCode.value, p.lines, p.data))
  }

  method ParseReply(rawLines: seq<string>) returns (r: Result<Reply>)
    ensures r == Parse(rawLines)
    ensures r.Ok? ==> rawLines != [] && Writes(rawLines[0], r.value.statusCode)
    ensures r.Err? ==> rawLines == [] || exists j: nat :: j < |rawLines| && FirstFault(rawLines, j, r.error)
  {
    hide Digits, Int, Joined, Writes, FirstFault;
    ParseStatusCode(rawLines);
    ParseFails(rawLines);
    if rawLines == [] {
      return Err(EmptyReply);
    }
    var lines: seq<string>, data, statusCode: Option<int> := [], None, None;
    var inDataBlock, dataLines: seq<string> := false, [];
    for i := 0 to |rawLines|
      invariant Run(START, rawLines) == Run(State(lines, data, statusCode, inDataBlock, dataLines), rawLines[i..])
    {
      var rawLine := rawLines[i];
      if inDataBlock {
        if rawLine == "." {
          inDataBlock := false;
          data := Some(Joined(dataLines));
        } else {
          var line := if rawLine != "" && rawLine[0] == '.' then rawLine[1..] else rawLine;
          dataLines := dataLines + [line];
        }
        continue;
      }
      if |rawLine| < 3 {
        return Err(LineTooShort(rawLine));
      }
      var codeStr := rawLine[..3];
      var code := Int(codeStr);
      if code.None? {
        return Err(InvalidStatusCode(codeStr));
      }
      if statusCode == None {
        statusCode := code;
      }
      var separator := if |rawLine| > 3 then rawLine[3] else ' ';
      var content := if |rawLine| > 4 then rawLine[4..] else "";
      if separator == '-' {
        lines := lines + [content];
      } else if separator == '+' {
        lines := lines + [content];
        inDataBlock := true;
        dataLines := [];
      } else if separator == ' ' {
        lines := lines + [content];
      } else {
        return Err(InvalidSeparator(separator));
      }
    }
    if statusCode == None {
      return Err(NoStatusCode);
    }
    r := Ok(Reply(statusCode.value, lines, data));
  }

  // ---- which replies are accepted ----

  predicate GoodStatus(line: string) {
    |line| >= 3 && Int(line[..3]).Some? && (|line| == 3 || line[3] in "+- ")
  }

  /**
   Whether the lines before position `i` leave a data block open: a `+` status line opens it, a lone dot
   closes it.
   */
  predicate Open(raw: seq<string>, i: nat)
    requires i <= |raw|
  {
    i > 0 && if Open(raw, i - 1) then raw[i - 1] != "." else |raw[i - 1]| > 3 && raw[i - 1][3] == '+'
  }

  lemma {:induction false} OpenAppend(raw: seq<string>, more: seq<string>, i: nat)
    requires i <= |raw|
    ensures Open(raw + more, i) == Open(raw, i)
  {
    if i > 0 {
      OpenAppend(raw, more, i - 1);
    }
  }

  lemma {:induction false} RunAppend(p: State, a: seq<string>, b: seq<string>)
    ensures Run(p, a + b) == match Run(p, a) case Ok(q) => Run(q, b) case Err(e) => Err(e)
    decreases |a|
  {
    hide Status, InBlock;
    if a == [] {
      assert a + b == b;
    } else {
      assert (a + b)[1..] == a[1..] + b;
      if p.inDataBlock {
        RunAppend(InBlock(p, a[0]), a[1..], b);
      } else if Status(p, a[0]).Ok? {
        RunAppend(Status(p, a[0]).value, a[1..], b);
      }
    }
  }

  lemma RunOne(p: State, line: string)
    ensures Run(p, [line]) == if p.inDataBlock then Ok(InBlock(p, line)) else Status(p, line)
  {
    assert [line][1..] == [];
  }

  /**
   The parser accepts a prefix exactly when its status lines are well formed, and then agrees on what is
   inside a block.
   */
  lemma {:induction false} RunExactly(raw: seq<string>, i: nat)
    requires i <= |raw|
    ensures Run(START, raw[..i]).Ok? <==> forall j: nat | j < i :: Open(raw, j) || GoodStatus(raw[j])
    ensures Run(START, raw[..i]).Ok? ==>
              var p := Run(START, raw[..i]).value; p.inDataBlock == Open(raw, i) && (i > 0 ==> p.statusCode.Some?)
  {
    hide Int, Run;
    if i == 0 {
      RunNothing(START);
      assert raw[..0] == [];
    } else {
      RunExactly(raw, i - 1);
      assert raw[..i] == raw[..i - 1] + [raw[i - 1]];
      RunAppend(START, raw[..i - 1], [raw[i - 1]]);
      if Run(START, raw[..i - 1]).Ok? {
        RunOne(Run(START, raw[..i - 1]).value, raw[i - 1]);
      }
    }
  }

  lemma RunNothing(p: State)
    ensures Run(p, []) == Ok(p)
  {
  }

  /** The parser accepts exactly the nonempty sequences whose lines outside data blocks are well formed. */
  lemma ParseExactly(raw: seq<string>)
    ensures Parse(raw).Ok? <==> raw != [] && forall j: nat | j < |raw| :: Open(raw, j) || GoodStatus(raw[j])
    ensures Parse(raw) != Err(NoStatusCode)
  {
    hide Run;
    RunExactly(raw, |raw|);
    assert raw[..|raw|] == raw;
    RunErrors(START, raw);
  }

  lemma {:induction false} RunErrors(p: State, raw: seq<string>)
    ensures Run(p, raw) != Err(NoStatusCode)
    decreases |raw|
  {
    if raw != [] {
      if p.inDataBlock {
        RunErrors(InBlock(p, raw[0]), raw[1..]);
      } else if Status(p, raw[0]).Ok? {
        RunErrors(Status(p, raw[0]).value, raw[1..]);
      }
    }
  }

  // ---- what each line adds ----

  /** The parser complains about line `j`, the first that is not well formed, and says what is wrong with it. */
  ghost predicate FirstFault(raw: seq<string>, j: nat, e: InvalidResponse)
    requires j < |raw|
  {
    && !Open(raw, j)
    && (forall i: nat | i < j :: Open(raw, i) || GoodStatus(raw[i]))
    && Blames(e, raw[j])
  }

  /** What is looked at first: the length, then the code, then the separator. */
  ghost predicate Blames(e: InvalidResponse, line: string) {
    match e
    case LineTooShort(l) => l == line && |line| < 3
    case InvalidStatusCode(code) => |line| >= 3 && code == line[..3] && forall n :: !Writes(line, n)
    case InvalidSeparator(c) => |line| > 3 && c == line[3] && c !in "+- " && exists n :: Writes(line, n)
    case _ => false
  }

  lemma StatusFails(p: State, line: string)
    ensures Status(p, line).Ok? <==> GoodStatus(line)
    ensures Status(p, line).Err? ==> Blames(Status(p, line).error, line)
  {
    hide Int, Writes;
    if |line| >= 3 {
      forall n ensures Int(line[..3]) == Some(n) <==> Writes(line, n) {
        IntOfThree(line, n);
      }
      assert Int(line[..3]).Some? ==> Writes(line, Int(line[..3]).value);
    }
  }

  lemma {:induction false} RunFails(raw: seq<string>, i: nat) returns (j: nat)
    requires 0 < i <= |raw| && Run(START, raw[..i]).Err?
    ensures j < i && FirstFault(raw, j, Run(START, raw[..i]).error)
  {
    hide Run, Status, GoodStatus, Blames;
    var a, line := raw[..i - 1], raw[i - 1];
    assert raw[..i] == a + [line];
    RunAppend(START, a, [line]);
    if Run(START, a).Err? {
      RunNothing(START);
      assert i == 1 ==> a == [];
      j := RunFails(raw, i - 1);
    } else {
      RunExactly(raw, i - 1);
      RunOne(Run(START, a).value, line);
      StatusFails(Run(START, a).value, line);
      j := i - 1;
    }
  }

  lemma ParseFails(raw: seq<string>)
    ensures Parse(raw).Err? && raw != [] ==> exists j: nat :: j < |raw| && FirstFault(raw, j, Parse(raw).error)
  {
    hide Run, FirstFault;
    RunExactly(raw, |raw|);
    assert raw[..|raw|] == raw;
    if raw != [] && Run(START, raw).Err? {
      var j := RunFails(raw, |raw|);
    }
  }

  /** What Parse makes of an accepted sequence. */
  lemma ParseRun(raw: seq<string>)
    requires Parse(raw).Ok?
    ensures Run(START, raw).Ok? && var p := Run(START, raw).value;
            p.statusCode.Some? && Parse(raw).value == Reply(p.statusCode.value, p.lines, p.data) &&
            p.inDataBlock == Open(raw, |raw|)
  {
    hide Run;
    RunExactly(raw, |raw|);
    assert raw[..|raw|] == raw;
  }

  /** The reply to a single line. */
  lemma ParseOne(line: string)
    requires GoodStatus(line)
    ensures Parse([line]).Ok?
    ensures var r := Parse([line]).value;
            Writes(line, r.statusCode) && r.data == None && r.lines == [if |line| > 4 then line[4..] else ""]
  {
    hide Run, Int, Writes;
    RunOne(START, line);
    IntOfThree(line, Int(line[..3]).value);
  }

  /** A status line adds what follows its separator, and nothing else. */
  lemma ParseNext(raw: seq<string>, line: string)
    requires Parse(raw).Ok? && !Open(raw, |raw|) && GoodStatus(line)
    ensures var r := Parse(raw).value;
            Parse(raw + [line]) == Ok(r.(lines := r.lines + [if |line| > 4 then line[4..] else ""]))
  {
    hide Run, Int, GoodStatus;
    ParseRun(raw);
    var p := Run(START, raw).value;
    RunAppend(START, raw, [line]);
    RunOne(p, line);
    StatusFails(p, line);
  }

  /** Line by line, `plain` is `body` with one leading dot taken away. */
  ghost predicate WithoutDots(body: seq<string>, plain: seq<string>) {
    && |plain| == |body|
    && forall k | 0 <= k < |body| :: if "." <= body[k] then body[k] == "." + plain[k] else body[k] == plain[k]
  }

  lemma {:induction false} RunBlock(p: State, body: seq<string>, plain: seq<string>)
    requires p.inDataBlock && "." !in body && WithoutDots(body, plain)
    ensures Run(p, body) == Ok(p.(dataLines := p.dataLines + plain))
    decreases |body|
  {
    if body == [] {
      assert p.dataLines + plain == p.dataLines;
    } else {
      assert Unstuffed(body[0]) == plain[0];
      var q := InBlock(p, body[0]);
      assert q.dataLines + plain[1..] == p.dataLines + plain;
      RunBlock(q, body[1..], plain[1..]);
    }
  }

  /**
   A data block adds nothing until it is closed, and then its lines, each without one leading dot, joined;
   they replace those of a block before it.
   */
  lemma ParseBlock(raw: seq<string>, opening: string, body: seq<string>, plain: seq<string>)
    requires Parse(raw + [opening]).Ok? && !Open(raw, |raw|) && Open(raw + [opening], |raw| + 1)
    requires "." !in body && WithoutDots(body, plain)
    ensures Parse(raw + [opening] + body) == Parse(raw + [opening])
    ensures var r := Parse(raw + [opening]).value;
            Parse(raw + [opening] + body + ["."]) == Ok(r.(data := Some(Joined(plain))))
  {
    hide Run, Int, GoodStatus, Joined, WithoutDots;
    var start := raw + [opening];
    ParseRun(start);
    OpenAppend(raw, [opening], |raw|);
    RunExactly(start, |raw|);
    assert start[..|raw|] == raw;
    RunAppend(START, raw, [opening]);
    RunOne(Run(START, raw).value, opening);
    var p := Run(START, start).value;
    assert p.dataLines + plain == plain;
    RunAppend(START, start, body);
    RunBlock(p, body, plain);
    RunAppend(START, start + body, ["."]);
    RunOne(p.(dataLines := plain), ".");
  }

  /** The status code is the number the first line starts with. */
  lemma ParseStatusCode(raw: seq<string>)
    ensures Parse(raw).Ok? ==> raw != [] && Writes(raw[0], Parse(raw).value.statusCode)
  {
    hide Run, Int, Writes;
    if Parse(raw).Ok? {
      ParseRun(raw);
      assert raw == [raw[0]] + raw[1..];
      RunAppend(START, [raw[0]], raw[1..]);
      RunOne(START, raw[0]);
      var q := Run(START, [raw[0]]).value;
      KeepsCode(q, raw[1..]);
      IntOfThree(raw[0], q.statusCode.value);
    }
  }

  lemma {:induction false} KeepsCode(p: State, raw: seq<string>)
    requires p.statusCode.Some? && Run(p, raw).Ok?
    ensures Run(p, raw).value.statusCode == p.statusCode
    decreases |raw|
  {
    hide Int;
    if raw != [] {
      KeepsCode(if p.inDataBlock then InBlock(p, raw[0]) else Status(p, raw[0]).value, raw[1..]);
    }
  }

  /** One line feed between any two lines, none around them. */
  lemma {:induction false} JoinedMore(lines: seq<string>, line: string)
    ensures Joined([line]) == line
    ensures Joined(lines + [line]) == if lines == [] then line else Joined(lines) + "\n" + line
  {
    if lines == [] {
      assert lines + [line] == [line];
    } else {
      var all := lines + [line];
      assert all[1..] == lines[1..] + [line];
      JoinedMore(lines[1..], line);
      assert |lines| == 1 ==> lines[1..] == [];
    }
  }

  /**
   The reader and the parser agree, on every prefix the reader has not yet called complete, about being in
   a data block.
   */
  lemma {:induction false} MachinesAgree(raw: seq<string>, i: nat)
    requires i <= |raw| && Reading(raw[..i]).Some?
    ensures Reading(raw[..i]).value == Open(raw, i)
    ensures Run(START, raw[..i]).Ok? ==> Run(START, raw[..i]).value.inDataBlock == Reading(raw[..i]).value
  {
    RunExactly(raw, i);
    ReadingIsOpen(raw, i);
  }

  lemma {:induction false} ReadingIsOpen(raw: seq<string>, i: nat)
    requires i <= |raw| && Reading(raw[..i]).Some?
    ensures Reading(raw[..i]).value == Open(raw, i)
  {
    if i > 0 {
      assert raw[..i][..i - 1] == raw[..i - 1];
      ReadingIsOpen(raw, i - 1);
    }
  }

  /** What the reader hands over never ends inside a data block, so no data lines are dropped. */
  lemma ReplyEndsOutside(raw: seq<string>)
    requires IsReply(raw)
    ensures !Open(raw, |raw| - 1) && !Open(raw, |raw|)
    ensures forall i: nat | i < |raw| - 1 && !Open(raw, i) :: |raw[i]| > 3 && raw[i][3] in "+-"
  {
    var n := |raw|;
    ReadingIsOpen(raw, n - 1);
    assert raw[..n] == raw;
    forall i: nat | i < n - 1 && !Open(raw, i) ensures |raw[i]| > 3 && raw[i][3] in "+-" {
      if Reading(raw[..i + 1]).None? {
        assert raw[..n - 1][..i + 1] == raw[..i + 1];
        CompleteStaysComplete(raw[..n - 1], i + 1);
      }
      assert raw[..i + 1][..i] == raw[..i];
      ReadingIsOpen(raw, i);
    }
  }

  // ---- rendering ----

  /** One status line, or one with a data block. */
  datatype Entry = Plain(code: string, content: string) | Data(code: string, content: string, body: seq<string>)

  function Stuffed(line: string): string {
    if line != "" && line[0] == '.' then "." + line else line
  }

  function StuffedAll(body: seq<string>): seq<string> {
    if body == [] then [] else [Stuffed(body[0])] + StuffedAll(body[1..])
  }

  function Shown(e: Entry): seq<string> {
    match e
    case Plain(code, content) => [code + "-" + content]
    case Data(code, content, body) => [code + "+" + content] + StuffedAll(body) + ["."]
  }

  function ShownAll(entries: seq<Entry>): seq<string> {
    if entries == [] then [] else Shown(entries[0]) + ShownAll(entries[1..])
  }

  /** Continuation lines and data blocks, then the line that ends the reply. */
  function Rendered(entries: seq<Entry>, last: Entry): seq<string> {
    ShownAll(entries) + [last.code + " " + last.content]
  }

  predicate IsCode(s: string) {
    |s| == 3 && Int(s).Some?
  }

  function Contents(entries: seq<Entry>): seq<string> {
    if entries == [] then [] else [entries[0].content] + Contents(entries[1..])
  }

  /** The body of the last data block. */
  function LastData(entries: seq<Entry>, before: Option<string>): Option<string> {
    if entries == [] then before
    else LastData(entries[1..], if entries[0].Data? then Some(Joined(entries[0].body)) else before)
  }

  predicate AllCodes(entries: seq<Entry>, last: Entry) {
    IsCode(last.code) && forall e | e in entries :: IsCode(e.code)
  }

  /** The first status code, the contents in order, and the last block's body joined by newlines. */
  function Meant(entries: seq<Entry>, last: Entry): Reply
    requires AllCodes(entries, last)
  {
    var first := if entries == [] then last.code else entries[0].code;
    Reply(Int(first).value, Contents(entries) + [last.content], LastData(entries, None))
  }

  lemma StuffingUndone(line: string)
    ensures Unstuffed(Stuffed(line)) == line && Stuffed(line) != "."
  {
  }

  lemma {:induction false} RunBody(p: State, body: seq<string>, more: seq<string>)
    requires p.inDataBlock
    ensures Run(p, StuffedAll(body) + more) == Run(p.(dataLines := p.dataLines + body), more)
    decreases |body|
  {
    var lines := StuffedAll(body) + more;
    if body == [] {
      assert lines == more && p.dataLines + body == p.dataLines;
    } else {
      StuffingUndone(body[0]);
      assert lines[0] == Stuffed(body[0]) && lines[1..] == StuffedAll(body[1..]) + more;
      var q := InBlock(p, lines[0]);
      assert q.dataLines + body[1..] == p.dataLines + body;
      RunBody(q, body[1..], more);
    }
  }

  lemma StatusLine(p: State, code: string, separator: char, content: string)
    requires IsCode(code) && separator in "+- "
    ensures var q := Noted(p, code, content);
            Status(p, code + [separator] + content) ==
            Ok(if separator == '+' then q.(inDataBlock := true, dataLines := []) else q)
  {
    hide Int;
    var line := code + [separator] + content;
    assert line[..3] == code && line[3] == separator && line[4..] == content;
    assert content == "" <==> |line| == 4;
  }

  lemma RunEntry(p: State, e: Entry, more: seq<string>)
    requires !p.inDataBlock && IsCode(e.code)
    ensures var q := Noted(p, e.code, e.content);
            Run(p, Shown(e) + more) ==
            Run(if e.Plain? then q else q.(data := Some(Joined(e.body)), dataLines := e.body), more)
  {
    hide Int, IsCode, Status, StuffedAll;
    if e.Plain? {
      StatusLine(p, e.code, '-', e.content);
      assert (Shown(e) + more)[1..] == more;
    } else {
      StatusLine(p, e.code, '+', e.content);
      var q := Status(p, e.code + "+" + e.content).value;
      var closing := ["."] + more;
      assert (Shown(e) + more)[1..] == StuffedAll(e.body) + closing;
      RunBody(q, e.body, closing);
      assert q.dataLines + e.body == e.body && closing[1..] == more;
    }
  }

  lemma {:induction false} RunRendered(p: State, entries: seq<Entry>, last: Entry)
    requires !p.inDataBlock && AllCodes(entries, last)
    ensures var r := Run(p, Rendered(entries, last));
            r.Ok? && r.value.lines == p.lines + Contents(entries) + [last.content] &&
            r.value.data == LastData(entries, p.data) &&
            r.value.statusCode == (if p.statusCode.Some? then p.statusCode
                                   else if entries == [] then Int(last.code) else Int(entries[0].code))
    decreases |entries|
  {
    hide Int, IsCode, Run, Status, Shown, Joined;
    var end := [last.code + " " + last.content];
    if entries == [] {
      StatusLine(p, last.code, ' ', last.content);
      RunOne(p, end[0]);
      assert Rendered(entries, last) == end;
    } else {
      var e := entries[0];
      RunEntry(p, e, ShownAll(entries[1..]) + end);
      assert Rendered(entries, last) == Shown(e) + (ShownAll(entries[1..]) + end);
      var q := Noted(p, e.code, e.content);
      var q' := if e.Plain? then q else q.(data := Some(Joined(e.body)), dataLines := e.body);
      CodeIsInt(e.code);
      RunRendered(q', entries[1..], last);
      assert p.lines + [e.content] + Contents(entries[1..]) == p.lines + Contents(entries);
    }
  }

  lemma CodeIsInt(s: string)
    requires IsCode(s)
    ensures Int(s).Some?
  {
  }

  /** Parsing undoes rendering. */
  lemma ParseUndoesRendering(entries: seq<Entry>, last: Entry)
    requires AllCodes(entries, last)
    ensures Parse(Rendered(entries, last)) == Ok(Meant(entries, last))
  {
    hide Int, Run;
    RunRendered(START, entries, last);
    assert [] + Contents(entries) == Contents(entries);
  }

  // ---- a rendered reply on the wire ----

  lemma {:induction false} ReadingBody(before: seq<string>, body: seq<string>)
    requires Reading(before) == Some(true)
    ensures Reading(before + StuffedAll(body)) == Some(true)
    decreases |body|
  {
    hide Reading;
    if body == [] {
      assert before + [] == before;
    } else {
      StuffingUndone(body[0]);
      ReadingNext(before, Stuffed(body[0]));
      ReadingBody(before + [Stuffed(body[0])], body[1..]);
      assert before + [Stuffed(body[0])] + StuffedAll(body[1..]) == before + StuffedAll(body);
    }
  }

  lemma ReadingEntry(before: seq<string>, e: Entry)
    requires Reading(before) == Some(false) && |e.code| == 3
    ensures Reading(before + Shown(e)) == Some(false)
  {
    hide Reading, StuffedAll;
    if e.Plain? {
      ReadingNext(before, e.code + "-" + e.content);
    } else {
      var opening := before + [e.code + "+" + e.content];
      ReadingNext(before, e.code + "+" + e.content);
      ReadingBody(opening, e.body);
      ReadingNext(opening + StuffedAll(e.body), ".");
      assert opening + StuffedAll(e.body) + ["."] == before + Shown(e);
    }
  }

  lemma {:induction false} ReadingEntries(before: seq<string>, entries: seq<Entry>)
    requires Reading(before) == Some(false) && forall e | e in entries :: |e.code| == 3
    ensures Reading(before + ShownAll(entries)) == Some(false)
    decreases |entries|
  {
    hide Reading, Shown;
    if entries == [] {
      assert before + [] == before;
    } else {
      ReadingEntry(before, entries[0]);
      ReadingEntries(before + Shown(entries[0]), entries[1..]);
      assert before + Shown(entries[0]) + ShownAll(entries[1..]) == before + ShownAll(entries);
    }
  }

  /** A rendering is exactly one reply to the reader. */
  lemma RenderedIsReply(entries: seq<Entry>, last: Entry)
    requires |last.code| == 3 && forall e | e in entries :: |e.code| == 3
    ensures IsReply(Rendered(entries, last))
  {
    hide Reading, IsReply;
    ReadingNone();
    ReadingEntries([], entries);
    assert [] + ShownAll(entries) == ShownAll(entries);
    ReadingNext(ShownAll(entries), last.code + " " + last.content);
  }

  /** Sent as bytes, a rendering without stray CRLFs is what the socket's next lines begin with. */
  lemma RenderedBytes(buffer: string, turns: seq<Turn>, entries: seq<Entry>, last: Entry, more: string)
    requires buffer + Heard(turns) == Sent(Rendered(entries, last)) + more
    requires forall l | l in Rendered(entries, last) :: OneLine(l)
    ensures Coming(buffer, turns) == Rendered(entries, last) + Lines(more)
  {
    LinesOfSent(Rendered(entries, last), more);
  }

  /**
   From bytes to reply: when the lines to come begin with a rendering, the reader takes exactly that,
   whatever follows it and however it arrives, and the parser recovers the reply.
   */
  method ReadAndParse(socket: Socket, ghost entries: seq<Entry>, ghost last: Entry, ghost more: seq<string>)
    returns (r: Result<Reply>)
    requires socket.Valid() && AllCodes(entries, last)
    requires socket.ToCome() == Rendered(entries, last) + more
    modifies socket
    ensures socket.Valid() && socket.ToCome() == more
    ensures socket.returned == old(socket.returned) + Rendered(entries, last)
    ensures r == Ok(Meant(entries, last))
  {
    hide Reading, IsReply, Rendered, Coming, Parse, Meant, AllCodes;
    CodesAreThree(entries, last);
    RenderedIsReply(entries, last);
    ParseUndoesRendering(entries, last);
    var l := socket.ReadReply();
    ghost var whole := Rendered(entries, last);
    if l.Incomplete? {
      NotComplete(whole, whole + more);
    }
    OneReply(l.lines, whole, old(socket.ToCome()));
    assert (whole + more)[|whole|..] == more;
    r := ParseReply(l.lines);
  }

  lemma NotComplete(a: seq<string>, lines: seq<string>)
    requires IsReply(a) && a <= lines
    ensures Reading(lines).None?
  {
    assert lines[..|a|] == a;
    CompleteStaysComplete(lines, |a|);
  }

  lemma CodesAreThree(entries: seq<Entry>, last: Entry)
    requires AllCodes(entries, last)
    ensures |last.code| == 3 && forall e | e in entries :: |e.code| == 3
  {
  }
}
