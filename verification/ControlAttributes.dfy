/** ControlProtocolParser.swift, parseAttributes: words, KEY=value and KEY="escaped value" in one line. */
module ControlAttributes {

  /** Character.isWhitespace on ASCII. */
  predicate IsWhitespace(c: char) {
    '\t' <= c <= '\r' || c == ' '
  }

  lemma WhitespaceIs(c: char)
    ensures IsWhitespace(c) <==> c as int in {9, 10, 11, 12, 13, 32}
  {
  }

  // ---- escapes ----

  const QUOTE := "\\\""
  const SLASH := "\\\\"

  function Replaced(s: string, from: string, to: string): string
    requires from != ""
    decreases |s|
  {
    if s == "" then ""
    else if from <= s then to + Replaced(s[|from|..], from, to)
    else [s[0]] + Replaced(s[1..], from, to)
  }

  /** The parser's two successive replacements. */
  function Unescaped(s: string): string {
    Replaced(Replaced(s, QUOTE, "\""), SLASH, "\\")
  }

  /** One pass over the escapes. */
  function OnePass(s: string): string
    decreases |s|
  {
    if s == "" then ""
    else if |s| >= 2 && s[0] == '\\' && (s[1] == '"' || s[1] == '\\') then [s[1]] + OnePass(s[2..])
    else [s[0]] + OnePass(s[1..])
  }

  function Escaped(s: string): string {
    if s == "" then ""
    else (if s[0] == '"' || s[0] == '\\' then ['\\', s[0]] else [s[0]]) + Escaped(s[1..])
  }

  lemma ReplacedMatch(from: string, to: string, t: string)
    requires from != ""
    ensures Replaced(from + t, from, to) == to + Replaced(t, from, to)
  {
    assert (from + t)[|from|..] == t;
  }

  lemma ReplacedCopy(c: char, t: string, from: string, to: string)
    requires |from| == 2 && (c != from[0] || t == "" || t[0] != from[1])
    ensures Replaced([c] + t, from, to) == [c] + Replaced(t, from, to)
  {
    var s := [c] + t;
    assert s[1..] == t && (t != "" ==> s[1] == t[0]);
  }

  /** The two replacements do what a single pass does, on every string. */
  lemma {:induction false} TwoReplacementsAreOnePass(s: string)
    ensures Unescaped(s) == OnePass(s)
    decreases |s|
  {
    if s != "" {
      var t := s[1..];
      if s[0] != '\\' {
        TwoReplacementsAreOnePass(t);
        PlainStep(s[0], t);
        assert s == [s[0]] + t;
      } else if |s| >= 2 && s[1] == '"' {
        TwoReplacementsAreOnePass(s[2..]);
        QuoteStep(s[2..]);
        assert s == "\\\"" + s[2..];
      } else if |s| >= 2 && s[1] == '\\' {
        TwoReplacementsAreOnePass(s[2..]);
        SlashStep(s[2..]);
        assert s == "\\\\" + s[2..];
      } else {
        TwoReplacementsAreOnePass(t);
        LoneStep(t);
        assert s == "\\" + t;
      }
    }
  }

  lemma PlainStep(c: char, t: string)
    requires c != '\\'
    ensures Unescaped([c] + t) == [c] + Unescaped(t)
  {
    hide Replaced;
    ReplacedCopy(c, t, QUOTE, "\"");
    ReplacedCopy(c, Replaced(t, QUOTE, "\""), SLASH, "\\");
  }

  lemma QuoteStep(t: string)
    ensures Unescaped(QUOTE + t) == "\"" + Unescaped(t)
  {
    hide Replaced;
    ReplacedMatch(QUOTE, "\"", t);
    ReplacedCopy('"', Replaced(t, QUOTE, "\""), SLASH, "\\");
  }

  /** Of two backslashes the second may belong to an escaped quote in the first replacement; the result is the same. */
  lemma SlashStep(t: string)
    ensures Unescaped(SLASH + t) == "\\" + Unescaped(t)
  {
    hide Replaced;
    assert SLASH + t == "\\" + ("\\" + t);
    if t != "" && t[0] == '"' {
      var w := t[1..];
      assert t == "\"" + w && "\\" + t == QUOTE + w;
      ReplacedCopy('\\', QUOTE + w, QUOTE, "\"");
      ReplacedMatch(QUOTE, "\"", w);
      ReplacedCopy('"', w, QUOTE, "\"");
      ReplacedCopy('\\', "\"" + Replaced(w, QUOTE, "\""), SLASH, "\\");
    } else {
      var u := Replaced(t, QUOTE, "\"");
      ReplacedCopy('\\', "\\" + t, QUOTE, "\"");
      ReplacedCopy('\\', t, QUOTE, "\"");
      assert "\\" + ("\\" + u) == SLASH + u;
      ReplacedMatch(SLASH, "\\", u);
    }
  }

  lemma LoneStep(t: string)
    requires t == "" || (t[0] != '"' && t[0] != '\\')
    ensures Unescaped("\\" + t) == "\\" + Unescaped(t)
  {
    hide Replaced;
    ReplacedCopy('\\', t, QUOTE, "\"");
    var u := Replaced(t, QUOTE, "\"");
    if t == "" {
      ReplacedNothing(QUOTE, "\"");
    } else {
      assert t == [t[0]] + t[1..];
      ReplacedCopy(t[0], t[1..], QUOTE, "\"");
    }
    ReplacedCopy('\\', u, SLASH, "\\");
  }

  lemma ReplacedNothing(from: string, to: string)
    requires from != ""
    ensures Replaced("", from, to) == ""
  {
  }

  lemma {:induction false} OnePassUndoesEscaping(s: string)
    ensures OnePass(Escaped(s)) == s
  {
    if s != "" {
      var e := Escaped(s);
      OnePassUndoesEscaping(s[1..]);
      assert s == [s[0]] + s[1..];
      if s[0] == '"' || s[0] == '\\' {
        assert e[2..] == Escaped(s[1..]);
      } else {
        assert e[1..] == Escaped(s[1..]);
      }
    }
  }

  lemma UnescapingUndoesEscaping(s: string)
    ensures Unescaped(Escaped(s)) == s
  {
    TwoReplacementsAreOnePass(Escaped(s));
    OnePassUndoesEscaping(s);
  }

  // ---- scanning ----

  /** How many characters of `s`, from the front, are whitespace. */
  function Spaces(s: string): (n: nat)
    ensures n <= |s|
  {
    if s != "" && IsWhitespace(s[0]) then 1 + Spaces(s[1..]) else 0
  }

  /** How many characters precede the first '=' or ' '. */
  function KeyLen(s: string): (n: nat)
    ensures n <= |s|
  {
    if s != "" && s[0] != '=' && s[0] != ' ' then 1 + KeyLen(s[1..]) else 0
  }

  function ValueLen(s: string): (n: nat)
    ensures n <= |s|
  {
    if s != "" && !IsWhitespace(s[0]) then 1 + ValueLen(s[1..]) else 0
  }

  /** How many characters precede the first quote that is not escaped. */
  function QuotedLen(s: string, escaped: bool): (n: nat)
    ensures n <= |s|
  {
    if s == "" || (!escaped && s[0] == '"') then 0
    else 1 + QuotedLen(s[1..], !escaped && s[0] == '\\')
  }

  /** The run of backslashes that ends just before position `i`. */
  ghost function Slashes(s: string, i: nat): nat
    requires i <= |s|
  {
    if i > 0 && s[i - 1] == '\\' then 1 + Slashes(s, i - 1) else 0
  }

  /** Every quote before position `n` has an odd number of backslashes before it. */
  ghost predicate QuotesEscaped(s: string, n: nat)
    requires n <= |s|
  {
    forall i | 0 <= i < n && s[i] == '"' :: Slashes(s, i) % 2 == 1
  }

  lemma {:induction false} QuotedFrom(s: string, j: nat)
    requires j <= |s|
    ensures var n := j + QuotedLen(s[j..], Slashes(s, j) % 2 == 1);
            && n <= |s| && (n < |s| ==> s[n] == '"' && Slashes(s, n) % 2 == 0)
            && forall i | j <= i < n && s[i] == '"' :: Slashes(s, i) % 2 == 1
    decreases |s| - j
  {
    hide Slashes;
    if j < |s| {
      assert s[j..][1..] == s[j + 1..];
      SlashesNext(s, j);
      QuotedFrom(s, j + 1);
    }
  }

  /** A quoted value ends at the first quote that has an even number of backslashes before it, or not at all. */
  lemma QuotedEnds(s: string)
    ensures var n := QuotedLen(s, false);
            (n < |s| ==> s[n] == '"' && Slashes(s, n) % 2 == 0) && QuotesEscaped(s, n)
  {
    hide QuotedLen, Slashes;
    NoSlashes(s);
    QuotedFrom(s, 0);
    assert s[0..] == s;
  }

  lemma NoSlashes(s: string)
    ensures Slashes(s, 0) == 0
  {
  }

  lemma SlashesNext(s: string, j: nat)
    requires j < |s|
    ensures Slashes(s, j + 1) == if s[j] == '\\' then 1 + Slashes(s, j) else 0
  {
  }

  lemma {:induction false} SlashesPrefix(s: string, t: string, i: nat)
    requires i <= |s|
    ensures Slashes(s + t, i) == Slashes(s, i)
  {
    if i > 0 {
      SlashesPrefix(s, t, i - 1);
    }
  }

  /** Inside a value no quote ends it, and its last backslashes do not take the closing quote with them. */
  lemma QuotedLenRaw(raw: string, rest: string)
    requires QuotesEscaped(raw, |raw|) && Slashes(raw, |raw|) % 2 == 0
    ensures QuotedLen(raw + "\"" + rest, false) == |raw|
  {
    hide QuotedLen;
    var s := raw + "\"" + rest;
    var n := QuotedLen(s, false);
    QuotedEnds(s);
    assert s == raw + ("\"" + rest);
    SlashesPrefix(raw, "\"" + rest, if n < |raw| then n else |raw|);
  }

  lemma QuotedLenUnclosed(raw: string)
    requires QuotesEscaped(raw, |raw|)
    ensures QuotedLen(raw, false) == |raw|
  {
    hide QuotedLen;
    QuotedEnds(raw);
  }

  /** A value, quoted or not, and what is left of the line. */
  function OneValue(v: string): (p: (string, string))
    requires v != ""
    ensures |p.1| <= |v|
  {
    if v[0] == '"' then
      var n := QuotedLen(v[1..], false);
      var rest := v[1 + n..];
      (Unescaped(v[1..1 + n]), if rest == "" then rest else rest[1..])
    else
      var n := ValueLen(v);
      (v[..n], v[n..])
  }

  /** One turn of the scan, from a character that is not whitespace: what is left of the line, and the pairs so far. */
  function OneItem(t: string, result: map<string, string>): (p: (string, map<string, string>))
    requires t != "" && !IsWhitespace(t[0])
    ensures |p.0| < |t|
  {
    var k := KeyLen(t);
    if k == |t| || t[k] == ' ' then (t[k..], result)
    else if k + 1 == |t| then ("", result)
    else
      var (value, rest) := OneValue(t[k + 1..]);
      (rest, result[t[..k] := value])
  }

  function Attributes(s: string, result: map<string, string>): map<string, string>
    decreases |s|
  {
    var t := s[Spaces(s)..];
    if t == "" then result
    else
      SpacesAll(s);
      var (rest, pairs) := OneItem(t, result);
      Attributes(rest, pairs)
  }

  /** Where each of the three scans stops: at the first character that ends it, or at the end of the line. */
  lemma {:induction false} ScansStop(s: string)
    ensures var n := Spaces(s); (n < |s| ==> !IsWhitespace(s[n])) && forall i | 0 <= i < n :: IsWhitespace(s[i])
    ensures var n := ValueLen(s); (n < |s| ==> IsWhitespace(s[n])) && forall i | 0 <= i < n :: !IsWhitespace(s[i])
    ensures var n := KeyLen(s); (n < |s| ==> s[n] in "= ") && forall i | 0 <= i < n :: s[i] !in "= "
  {
    hide IsWhitespace;
    if s != "" {
      ScansStop(s[1..]);
    }
  }

  lemma SpacesAll(s: string)
    ensures var t := s[Spaces(s)..]; t != "" ==> !IsWhitespace(t[0])
  {
  }

  method ParseAttributes(line: string) returns (result: map<string, string>)
    ensures result == Attributes(line, map[])
  {
    hide Attributes, OneItem, IsWhitespace;
    result := map[];
    var index := 0;
    assert line[0..] == line;
    while index < |line|
      invariant index <= |line|
      invariant Attributes(line, map[]) == Attributes(line[index..], result)
    {
      index := SkipSpaces(line, index, result);
      if index == |line| {
        break;
      }
      assert line[index..][0] == line[index];
      AttributesAt(line[index..], result);
      index, result := ScanItem(line, index, result);
    }
    assert line[index..] == "";
    AttributesNone(result);
  }

  method ScanItem(line: string, start: nat, pairs: map<string, string>)
    returns (index: nat, result: map<string, string>)
    requires start < |line| && line[start..][0] == line[start] && !IsWhitespace(line[start])
    ensures start < index <= |line|
    ensures (line[index..], result) == OneItem(line[start..], pairs)
  {
    hide OneValue, IsWhitespace, KeyLen, OneItem;
    ghost var t := line[start..];
    OneItemCases(t, pairs);
    index, result := start, pairs;
    var keyEnd := ScanKey(line, index);
    assert t[keyEnd - start..] == line[keyEnd..];
    if keyEnd >= |line| || line[keyEnd] == ' ' {
      KeyNotEmpty(t);
      index := keyEnd;
      return;
    }
    var key := line[index..keyEnd];
    assert key == t[..keyEnd - start] && t[keyEnd - start + 1..] == line[keyEnd + 1..];
    index := keyEnd + 1;
    if index == |line| {
      return;
    }
    var value: string;
    value, index := ScanValue(line, index);
    result := result[key := value];
  }

  lemma OneItemCases(t: string, pairs: map<string, string>)
    requires t != "" && !IsWhitespace(t[0])
    ensures var k := KeyLen(t);
            if k == |t| || t[k] == ' ' then OneItem(t, pairs) == (t[k..], pairs)
            else if k + 1 == |t| then OneItem(t, pairs) == ("", pairs)
            else var p := OneValue(t[k + 1..]); OneItem(t, pairs) == (p.1, pairs[t[..k] := p.0])
  {
    hide OneValue;
  }

  method ScanKey(line: string, index: nat) returns (keyEnd: nat)
    requires index <= |line|
    ensures keyEnd == index + KeyLen(line[index..]) <= |line|
  {
    keyEnd := index;
    while keyEnd < |line| && line[keyEnd] != '=' && line[keyEnd] != ' '
      invariant index <= keyEnd <= |line|
      invariant KeyLen(line[index..]) == keyEnd - index + KeyLen(line[keyEnd..])
    {
      assert line[keyEnd..][1..] == line[keyEnd + 1..];
      keyEnd := keyEnd + 1;
    }
  }

  lemma KeyNotEmpty(t: string)
    requires t != "" && !IsWhitespace(t[0]) && (KeyLen(t) == |t| || t[KeyLen(t)] == ' ')
    ensures KeyLen(t) > 0
  {
  }

  method ScanValue(line: string, start: nat) returns (value: string, index: nat)
    requires start < |line|
    ensures start <= index <= |line|
    ensures (value, line[index..]) == OneValue(line[start..])
  {
    hide Unescaped, IsWhitespace, QuotedLen, OnePass, Slashes, QuotesEscaped;
    ghost var v := line[start..];
    if line[start] == '"' {
      var valueEnd;
      value, valueEnd := Quoted(line, start + 1);
      ghost var n := valueEnd - start - 1;
      assert v[1..] == line[start + 1..];
      assert v[1 + n..] == line[valueEnd..] && v[1..1 + n] == line[start + 1..valueEnd];
      if valueEnd < |line| {
        index := valueEnd + 1;
        assert line[valueEnd..][1..] == line[index..];
      } else {
        index := valueEnd;
      }
    } else {
      var valueEnd := start;
      while valueEnd < |line| && !IsWhitespace(line[valueEnd])
        invariant start <= valueEnd <= |line|
        invariant ValueLen(v) == valueEnd - start + ValueLen(line[valueEnd..])
      {
        assert line[valueEnd..][1..] == line[valueEnd + 1..];
        valueEnd := valueEnd + 1;
      }
      value := line[start..valueEnd];
      assert value == v[..valueEnd - start] && v[valueEnd - start..] == line[valueEnd..];
      index := valueEnd;
    }
  }

  lemma AttributesNone(result: map<string, string>)
    ensures Attributes("", result) == result
  {
  }

  lemma AttributesAt(t: string, result: map<string, string>)
    requires t != "" && !IsWhitespace(t[0])
    ensures var (rest, pairs) := OneItem(t, result); Attributes(t, result) == Attributes(rest, pairs)
  {
    hide OneItem;
    assert t[0..] == t;
  }

  /** The loop that skips whitespace. */
  method SkipSpaces(line: string, from: nat, ghost result: map<string, string>) returns (index: nat)
    requires from <= |line|
    ensures from <= index <= |line| && (index < |line| ==> !IsWhitespace(line[index]))
    ensures Attributes(line[from..], result) == Attributes(line[index..], result)
  {
    hide Attributes;
    index := from;
    while index < |line| && IsWhitespace(line[index])
      invariant from <= index <= |line|
      invariant Attributes(line[from..], result) == Attributes(line[index..], result)
    {
      SkipOne(line[index..], result);
      assert line[index..][1..] == line[index + 1..];
      index := index + 1;
    }
  }

  lemma SkipOne(s: string, result: map<string, string>)
    requires s != "" && IsWhitespace(s[0])
    ensures Attributes(s, result) == Attributes(s[1..], result)
  {
    assert s[Spaces(s)..] == s[1..][Spaces(s[1..])..];
  }

  /** The loop over a quoted value, and its unescaping. */
  method Quoted(line: string, index: nat) returns (value: string, valueEnd: nat)
    requires index <= |line|
    ensures valueEnd == index + QuotedLen(line[index..], false)
    ensures value == Unescaped(line[index..valueEnd]) == OnePass(line[index..valueEnd])
    ensures valueEnd < |line| ==> line[valueEnd] == '"' && Slashes(line[index..], valueEnd - index) % 2 == 0
    ensures QuotesEscaped(line[index..], valueEnd - index)
  {
    hide Replaced, Slashes, QuotesEscaped, OnePass;
    QuotedEnds(line[index..]);
    valueEnd := index;
    var escaped := false;
    while valueEnd < |line|
      invariant index <= valueEnd <= |line|
      invariant QuotedLen(line[index..], false) == valueEnd - index + QuotedLen(line[valueEnd..], escaped)
    {
      var c := line[valueEnd];
      assert line[valueEnd..][1..] == line[valueEnd + 1..];
      if escaped {
        escaped := false;
      } else if c == '\\' {
        escaped := true;
      } else if c == '"' {
        break;
      }
      valueEnd := valueEnd + 1;
    }
    value := Replaced(Replaced(line[index..valueEnd], QUOTE, "\""), SLASH, "\\");
    TwoReplacementsAreOnePass(line[index..valueEnd]);
  }

  // ---- printing ----

  /** The escaped value between its quotes. */
  function Between(value: string): string {
    "\"" + Escaped(value) + "\""
  }

  /** What a line is printed from; each item is followed by whitespace. */
  datatype Item =
    | Word(text: string, gap: string)
    | Plain(key: string, value: string, gap: string)
    | Escapes(key: string, value: string, gap: string)

  function Shown(e: Item): string {
    match e
    case Word(text, _) => text
    case Plain(key, value, _) => key + "=" + value
    case Escapes(key, value, _) => key + "=" + Between(value)
  }

  function Printed(items: seq<Item>): string {
    if items == [] then "" else Shown(items[0]) + items[0].gap + Printed(items[1..])
  }

  /** Keys and words have no '=' or ' ' and do not start with whitespace; a tab inside is let through. */
  predicate IsKey(s: string) {
    KeyLen(s) == |s| && (s != "" ==> !IsWhitespace(s[0]))
  }

  /** What the item needs to be told apart from `rest`, which follows its gap. */
  predicate Good(e: Item, rest: string) {
    Spaces(e.gap) == |e.gap| &&
    match e
    case Word(text, gap) => text != "" && IsKey(text) && if gap == "" then rest == "" else gap[0] == ' '
    case Plain(key, value, gap) =>
      IsKey(key) && ValueLen(value) == |value| && (value != "" ==> value[0] != '"') &&
      (gap == "" ==> rest == "" && value != "")
    case Escapes(key, _, _) => IsKey(key)
  }

  predicate AllGood(items: seq<Item>, rest: string) {
    items == [] || (Good(items[0], Printed(items[1..]) + rest) && AllGood(items[1..], rest))
  }

  /** Later values replace earlier ones; words mean nothing. */
  function Meant(items: seq<Item>, result: map<string, string>): map<string, string> {
    if items == [] then result
    else Meant(items[1..], if items[0].Word? then result else result[items[0].key := items[0].value])
  }

  lemma {:induction false} SkipGap(gap: string, s: string, result: map<string, string>)
    requires Spaces(gap) == |gap|
    ensures Attributes(gap + s, result) == Attributes(s, result)
  {
    hide Attributes;
    if gap == "" {
      assert gap + s == s;
    } else {
      SkipOne(gap + s, result);
      assert (gap + s)[1..] == gap[1..] + s;
      SkipGap(gap[1..], s, result);
    }
  }

  lemma {:induction false} KeyLenOf(a: string, b: string)
    requires KeyLen(a) == |a| && (b != "" ==> b[0] == '=' || b[0] == ' ')
    ensures KeyLen(a + b) == |a|
  {
    if a == "" {
      assert a + b == b;
    } else {
      assert (a + b)[1..] == a[1..] + b;
      KeyLenOf(a[1..], b);
    }
  }

  lemma {:induction false} ValueLenOf(a: string, b: string)
    requires ValueLen(a) == |a| && (b != "" ==> IsWhitespace(b[0]))
    ensures ValueLen(a + b) == |a|
  {
    if a == "" {
      assert a + b == b;
    } else {
      assert (a + b)[1..] == a[1..] + b;
      ValueLenOf(a[1..], b);
    }
  }

  /** Inside an escaped value no quote ends it. */
  lemma {:induction false} QuotedLenOf(v: string, b: string)
    ensures QuotedLen(Escaped(v) + "\"" + b, false) == |Escaped(v)|
  {
    var s := Escaped(v) + "\"" + b;
    if v != "" {
      QuotedLenOf(v[1..], b);
      var more := Escaped(v[1..]) + "\"" + b;
      if v[0] == '"' || v[0] == '\\' {
        assert s[1..][1..] == more;
      } else {
        assert s[1..] == more;
      }
    }
  }

  lemma WordStep(text: string, rest: string, result: map<string, string>)
    requires text != "" && IsKey(text) && (rest != "" ==> rest[0] == ' ')
    ensures Attributes(text + rest, result) == Attributes(rest, result)
  {
    hide Attributes;
    KeyLenOf(text, rest);
    AttributesAt(text + rest, result);
    assert (text + rest)[|text|..] == rest;
  }

  lemma KeyStep(key: string, v: string, result: map<string, string>)
    requires IsKey(key)
    ensures var t := key + "=" + v;
            KeyLen(t) == |key| && !IsWhitespace(t[0]) && t[|key|] == '=' && t[..|key|] == key && t[|key| + 1..] == v
  {
    KeyLenOf(key, "=" + v);
    assert key + "=" + v == key + ("=" + v);
  }

  lemma PlainItemStep(key: string, value: string, rest: string, result: map<string, string>)
    requires IsKey(key) && ValueLen(value) == |value| && value + rest != "" && (value + rest)[0] != '"'
    requires rest != "" ==> IsWhitespace(rest[0])
    ensures Attributes(key + "=" + (value + rest), result) == Attributes(rest, result[key := value])
  {
    hide Attributes;
    var v := value + rest;
    KeyStep(key, v, result);
    ValueLenOf(value, rest);
    AttributesAt(key + "=" + v, result);
    assert v[|value|..] == rest && v[..|value|] == value;
  }

  lemma QuotedValue(raw: string, rest: string)
    requires QuotedLen(raw + "\"" + rest, false) == |raw|
    ensures OneValue("\"" + raw + "\"" + rest) == (Unescaped(raw), rest)
  {
    hide Unescaped, QuotedLen;
    var v := "\"" + raw + "\"" + rest;
    assert v[1..] == raw + "\"" + rest;
    assert v[1..1 + |raw|] == raw && v[1 + |raw|..] == "\"" + rest && ("\"" + rest)[1..] == rest;
  }

  lemma PairStep(key: string, v: string, value: string, rest: string, result: map<string, string>)
    requires IsKey(key) && v != "" && OneValue(v) == (value, rest)
    ensures Attributes(key + "=" + v, result) == Attributes(rest, result[key := value])
  {
    hide Attributes, OneItem, OneValue, KeyLen;
    KeyStep(key, v, result);
    AttributesAt(key + "=" + v, result);
    OneItemCases(key + "=" + v, result);
  }

  lemma EscapesItemStep(key: string, value: string, rest: string, result: map<string, string>)
    requires IsKey(key)
    ensures Attributes(key + "=" + (Between(value) + rest), result) == Attributes(rest, result[key := value])
  {
    hide Attributes, OneValue, IsKey, Unescaped, Escaped, QuotedLen;
    QuotedLenOf(value, rest);
    UnescapingUndoesEscaping(value);
    QuotedValue(Escaped(value), rest);
    PairStep(key, Between(value) + rest, value, rest, result);
  }

  /**
   Whatever stands between the quotes, the scan takes it up to the closing one and undoes the escapes of a
   quote or a backslash; a backslash before any other character is kept.
   */
  lemma QuotedPair(key: string, raw: string, rest: string, result: map<string, string>)
    requires '=' !in key && ' ' !in key && (key != "" ==> !IsWhitespace(key[0]))
    requires QuotesEscaped(raw, |raw|) && Slashes(raw, |raw|) % 2 == 0
    ensures Attributes(key + "=\"" + raw + "\"" + rest, result) == Attributes(rest, result[key := OnePass(raw)])
  {
    hide Attributes, OneValue, OnePass, Unescaped, QuotedLen, Slashes, QuotesEscaped;
    KeyLenExactly(key);
    QuotedLenRaw(raw, rest);
    QuotedValue(raw, rest);
    TwoReplacementsAreOnePass(raw);
    var v := "\"" + raw + "\"" + rest;
    PairStep(key, v, OnePass(raw), rest, result);
    assert key + "=\"" + raw + "\"" + rest == key + "=" + v;
  }

  /** A value whose quote is never closed goes to the end of the line. */
  lemma UnclosedPair(key: string, raw: string, result: map<string, string>)
    requires '=' !in key && ' ' !in key && (key != "" ==> !IsWhitespace(key[0])) && QuotesEscaped(raw, |raw|)
    ensures Attributes(key + "=\"" + raw, result) == result[key := OnePass(raw)]
  {
    hide Attributes, OnePass, Unescaped, QuotedLen, Slashes, QuotesEscaped;
    KeyLenExactly(key);
    QuotedLenUnclosed(raw);
    TwoReplacementsAreOnePass(raw);
    var v := "\"" + raw;
    assert v[1..] == raw && v[1..1 + |raw|] == raw && v[1 + |raw|..] == "";
    PairStep(key, v, OnePass(raw), "", result);
    AttributesNone(result[key := OnePass(raw)]);
    assert key + "=\"" + raw == key + "=" + v;
  }

  lemma ItemStep(e: Item, rest: string, result: map<string, string>)
    requires Good(e, rest)
    ensures Attributes(Shown(e) + e.gap + rest, result) ==
            Attributes(rest, if e.Word? then result else result[e.key := e.value])
  {
    hide Attributes, Between, IsKey, KeyLen, ValueLen;
    var more := e.gap + rest;
    match e {
      case Word(text, gap) =>
        assert Shown(e) + gap + rest == text + more;
        WordStep(text, more, result);
        SkipGap(gap, rest, result);
      case Plain(key, value, gap) =>
        assert Shown(e) + gap + rest == key + "=" + (value + more);
        PlainItemStep(key, value, more, result);
        SkipGap(gap, rest, result[key := value]);
      case Escapes(key, value, gap) =>
        assert Shown(e) + gap + rest == key + "=" + (Between(value) + more);
        EscapesItemStep(key, value, more, result);
        SkipGap(gap, rest, result[key := value]);
    }
  }

  lemma {:induction false} PrintedBefore(items: seq<Item>, rest: string, result: map<string, string>)
    requires AllGood(items, rest)
    ensures Attributes(Printed(items) + rest, result) == Attributes(rest, Meant(items, result))
    decreases |items|
  {
    hide Attributes, Good, Shown;
    if items == [] {
      assert Printed(items) + rest == rest;
    } else {
      var e, more := items[0], Printed(items[1..]) + rest;
      ItemStep(e, more, result);
      assert Printed(items) + rest == Shown(e) + e.gap + more;
      PrintedBefore(items[1..], rest, if e.Word? then result else result[e.key := e.value]);
    }
  }

  /** Scanning undoes printing: exactly the pairs, later ones over earlier ones, with their values as they were. */
  lemma AttributesUndoPrinting(items: seq<Item>)
    requires AllGood(items, "")
    ensures Attributes(Printed(items), map[]) == Meant(items, map[])
  {
    PrintedBefore(items, "", map[]);
    assert Printed(items) + "" == Printed(items);
  }

  /** A line that ends right after `KEY=` loses that pair, so it is undone exactly when it said nothing new. */
  lemma EmptyValueAtTheEnd(items: seq<Item>, key: string)
    requires IsKey(key) && AllGood(items, key + "=")
    ensures Printed(items + [Plain(key, "", "")]) == Printed(items) + (key + "=")
    ensures Attributes(Printed(items) + (key + "="), map[]) == Meant(items, map[])
    ensures var m := Meant(items, map[]);
            Attributes(Printed(items) + (key + "="), map[]) == Meant(items + [Plain(key, "", "")], map[]) <==>
                key in m && m[key] == ""
  {
    hide Attributes, IsKey, AllGood, Printed, Meant, Shown;
    PrintedBefore(items, key + "=", map[]);
    var m := Meant(items, map[]);
    KeyAtTheEnd(key, m);
    PrintedAppend(items, Plain(key, "", ""));
    ShownEmpty(key);
    MeantAppend(items, Plain(key, "", ""), map[]);
    assert m[key := ""][key] == "";
    assert key in m && m[key] == "" ==> m[key := ""] == m;
  }

  lemma ShownEmpty(key: string)
    ensures Shown(Plain(key, "", "")) + "" == key + "="
  {
  }

  lemma KeyAtTheEnd(key: string, result: map<string, string>)
    requires IsKey(key)
    ensures Attributes(key + "=", result) == result
  {
    hide Attributes;
    KeyStep(key, "", result);
    assert key + "=" + "" == key + "=";
    AttributesAt(key + "=", result);
    AttributesNone(result);
  }

  lemma {:induction false} PrintedAppend(items: seq<Item>, e: Item)
    ensures Printed(items + [e]) == Printed(items) + (Shown(e) + e.gap)
  {
    hide Shown;
    if items == [] {
      assert items + [e] == [e] && [e][1..] == [];
    } else {
      assert (items + [e])[1..] == items[1..] + [e];
      PrintedAppend(items[1..], e);
    }
  }

  lemma {:induction false} MeantAppend(items: seq<Item>, e: Item, result: map<string, string>)
    ensures var m := Meant(items, result); Meant(items + [e], result) == if e.Word? then m else m[e.key := e.value]
    decreases |items|
  {
    if items == [] {
      assert items + [e] == [e] && [e][1..] == [];
    } else {
      assert (items + [e])[1..] == items[1..] + [e];
      MeantAppend(items[1..], e, if items[0].Word? then result else result[items[0].key := items[0].value]);
    }
  }

  // ---- which keys there can be ----

  lemma {:induction false} KeyLenPrefix(s: string)
    ensures KeyLen(s[..KeyLen(s)]) == KeyLen(s)
  {
    if s != "" && s[0] != '=' && s[0] != ' ' {
      KeyLenPrefix(s[1..]);
      assert s[..KeyLen(s)][1..] == s[1..][..KeyLen(s[1..])];
    }
  }

  lemma {:induction false} KeyLenExactly(s: string)
    ensures KeyLen(s) == |s| <==> '=' !in s && ' ' !in s
  {
    if s != "" {
      KeyLenExactly(s[1..]);
      assert s == [s[0]] + s[1..];
    }
  }

  /** A turn of the scan adds at most a pair whose key is one. */
  lemma OneItemKeys(t: string, result: map<string, string>)
    requires t != "" && !IsWhitespace(t[0])
    ensures forall k | k in OneItem(t, result).1 && k !in result :: IsKey(k)
  {
    hide OneValue;
    KeyLenPrefix(t);
  }

  lemma {:induction false} KeysAreKeys(s: string, result: map<string, string>)
    requires forall k | k in result :: IsKey(k)
    ensures forall k | k in Attributes(s, result) :: IsKey(k)
    decreases |s|
  {
    hide OneItem, IsKey;
    var t := s[Spaces(s)..];
    if t != "" {
      SpacesAll(s);
      OneItemKeys(t, result);
      var (rest, pairs) := OneItem(t, result);
      KeysAreKeys(rest, pairs);
    }
  }

  /** No key of any line holds a space or '=' or starts with whitespace. */
  lemma KeysOfAnyLine(line: string, k: string)
    requires k in Attributes(line, map[])
    ensures ' ' !in k && '=' !in k && (k != "" ==> !IsWhitespace(k[0]))
  {
    KeysAreKeys(line, map[]);
    KeyLenExactly(k);
  }

  /** A key is dropped exactly when it contains a space; other whitespace inside it is kept. */
  lemma KeyKeptExactly(key: string, value: string)
    requires '=' !in key && (key != "" ==> !IsWhitespace(key[0]))
    requires value != "" && ValueLen(value) == |value| && value[0] != '"'
    ensures key in Attributes(key + "=" + value, map[]) <==> ' ' !in key
    ensures ' ' !in key ==> Attributes(key + "=" + value, map[]) == map[key := value]
  {
    hide Attributes;
    if ' ' !in key {
      KeyLenExactly(key);
      PlainItemStep(key, value, "", map[]);
      AttributesNone(map[key := value]);
      assert value + "" == value;
    } else if key in Attributes(key + "=" + value, map[]) {
      KeysOfAnyLine(key + "=" + value, key);
    }
  }

  /** The documentation has keys with whitespace dropped; this one has a tab and is not. */
  lemma TabInKey()
    ensures Attributes("a\tb=1", map[]) == map["a\tb" := "1"]
  {
    hide Attributes;
    KeyKeptExactly("a\tb", "1");
    assert "a\tb" + "=" + "1" == "a\tb=1";
  }
}
