/**
 * `JSON.stringify` and `JSON.parse` over JSON values. `Parse` returns
 * `None` where `JSON.parse` throws SyntaxError, and also for a `\u` escape
 * of a lone surrogate, which strings of code points cannot hold.
 */
module Json {
  import opened Wrappers
  import opened JsObject
  import Uri
  import JsString
  import opened Seqs

  /**
   * A JSON value. A number keeps the literal text it was written with; an
   * object is an insertion-ordered list of distinct keys.
   */
  datatype Value =
    | Bool(b: bool)
    | Null
    | Number(literal: string)
    | Str(s: string)
    | Arr(items: seq<Value>)
    | Object(members: Obj<Value>)

  // ---------------------------------------------------------------- stringify

  function HexLower(n: nat): char
    requires n < 16
  {
    "0123456789abcdef"[n]
  }

  /** How JSON.stringify writes one character inside a string literal. */
  function EscapeChar(c: char): string {
    var n := c as int;
    if c == '"' then "\\\""
    else if c == '\\' then "\\\\"
    else if n == 0x08 then "\\b"
    else if n == 0x0C then "\\f"
    else if c == '\n' then "\\n"
    else if c == '\r' then "\\r"
    else if c == '\t' then "\\t"
    else if n < 0x20 then "\\u00" + [HexLower(n / 16), HexLower(n % 16)]
    else [c]
  }

  function Escape(s: string): string {
    if s == [] then "" else EscapeChar(s[0]) + Escape(s[1..])
  }

  function Quote(s: string): string {
    "\"" + Escape(s) + "\""
  }

  function Render(v: Value): string
    decreases v
  {
    match v
    case Bool(b) => if b then "true" else "false"
    case Null => "null"
    case Number(t) => t
    case Str(s) => Quote(s)
    case Arr(items) => "[" + RenderItems(items) + "]"
    case Object(ms) => "{" + RenderMembers(ms) + "}"
  }

  /** Array elements separated by commas. */
  function RenderItems(items: seq<Value>): string
    decreases items
  {
    if items == [] then ""
    else if |items| == 1 then Render(items[0])
    else Render(items[0]) + "," + RenderItems(items[1..])
  }

  function RenderMember(m: (string, Value)): string
    decreases m
  {
    Quote(m.0) + ":" + Render(m.1)
  }

  /** Object members in property order, separated by commas. */
  function RenderMembers(ms: Obj<Value>): string
    decreases ms
  {
    if ms == [] then ""
    else if |ms| == 1 then RenderMember(ms[0])
    else RenderMember(ms[0]) + "," + RenderMembers(ms[1..])
  }

  /** `JSON.stringify(o)` of a plain object: no white space. */
  function Stringify(o: Obj<Value>): string {
    Render(Object(o))
  }

  // -------------------------------------------------------------------- parse

  predicate IsWs(c: char) { c == ' ' || c == '\t' || c == '\n' || c == '\r' }

  function SkipWs(s: string): (r: string)
    ensures |r| <= |s|
    ensures r == [] || !IsWs(r[0])
  {
    if s != [] && IsWs(s[0]) then SkipWs(s[1..]) else s
  }

  /** Four hexadecimal digits at the start of `s`. */
  function Hex4(s: string): (r: Option<nat>)
    ensures r.Some? ==> r.value < 0x10000
  {
    if |s| >= 4 && Uri.HexValue(s[0]).Some? && Uri.HexValue(s[1]).Some?
       && Uri.HexValue(s[2]).Some? && Uri.HexValue(s[3]).Some?
    then
      Some(((Uri.HexValue(s[0]).value * 16 + Uri.HexValue(s[1]).value) * 16
            + Uri.HexValue(s[2]).value) * 16 + Uri.HexValue(s[3]).value)
    else None
  }

  function ConsChar(c: char, r: Option<(string, string)>): Option<(string, string)> {
    match r
    case None => None
    case Some((t, rest)) => Some(([c] + t, rest))
  }

  /**
   * The body of a string literal, after its opening quote: the string it
   * denotes and the text after its closing quote.
   */
  function StringBody(s: string): (r: Option<(string, string)>)
    ensures r.Some? ==> |r.value.1| < |s|
    decreases |s|
  {
    if s == [] then None
    else if s[0] == '"' then Some(("", s[1..]))
    else if (s[0] as int) < 0x20 then None            // raw control characters are not allowed
    else if s[0] != '\\' then ConsChar(s[0], StringBody(s[1..]))
    else if |s| < 2 then None
    else
      var e := s[1];
      if e == '"' || e == '\\' || e == '/' then ConsChar(e, StringBody(s[2..]))
      else if e == 'b' then ConsChar(8 as char, StringBody(s[2..]))
      else if e == 'f' then ConsChar(12 as char, StringBody(s[2..]))
      else if e == 'n' then ConsChar('\n', StringBody(s[2..]))
      else if e == 'r' then ConsChar('\r', StringBody(s[2..]))
      else if e == 't' then ConsChar('\t', StringBody(s[2..]))
      else if e == 'u' then
        match Hex4(s[2..])
        case None => None
        case Some(u) =>
          if 0xD800 <= u < 0xDC00 then
            // a high surrogate is only a character together with an escaped low surrogate
            if |s| >= 12 && s[6] == '\\' && s[7] == 'u' then
              match Hex4(s[8..])
              case None => None
              case Some(l) =>
                if 0xDC00 <= l < 0xE000 then
                  ConsChar((0x10000 + (u - 0xD800) * 0x400 + (l - 0xDC00)) as char, StringBody(s[12..]))
                else None
            else None
          else if 0xDC00 <= u < 0xE000 then None
          else ConsChar(u as char, StringBody(s[6..]))
      else None
  }

  function DigitRun(s: string): (n: nat)
    ensures n <= |s|
    ensures forall i :: 0 <= i < n ==> JsString.IsDigit(s[i])
    ensures n == |s| || !JsString.IsDigit(s[n])
  {
    if s != [] && JsString.IsDigit(s[0]) then 1 + DigitRun(s[1..]) else 0
  }

  /** Characters that can occur in a JSON number. */
  predicate NumberChar(c: char) {
    JsString.IsDigit(c) || c == '-' || c == '+' || c == '.' || c == 'e' || c == 'E'
  }

  function NumberCharRun(s: string): (n: nat)
    ensures n <= |s|
    ensures forall i :: 0 <= i < n ==> NumberChar(s[i])
    ensures n == |s| || !NumberChar(s[n])
  {
    if s != [] && NumberChar(s[0]) then 1 + NumberCharRun(s[1..]) else 0
  }

  /** Where the integer part of a number starts: after an optional minus. */
  function IntStart(t: string): nat {
    if |t| > 0 && t[0] == '-' then 1 else 0
  }

  /** Where the integer part ends: after a lone `0`, or after a run of digits. */
  function IntEnd(t: string): (j: nat)
    requires IntStart(t) < |t|
    ensures IntStart(t) <= j <= |t|
  {
    var i := IntStart(t);
    if t[i] == '0' then i + 1 else i + DigitRun(t[i..])
  }

  /** Where the fraction starting at `j` ends: after `.` and its digits, or at `j` when there is none. */
  function FracEnd(t: string, j: nat): (k: nat)
    requires j <= |t|
    ensures j <= k <= |t|
  {
    if j < |t| && t[j] == '.' then j + 1 + DigitRun(t[j + 1..]) else j
  }

  /** Where the exponent's digits start, after `e` or `E` at `k` and an optional sign. */
  function ExpDigits(t: string, k: nat): nat
    requires k < |t|
  {
    if k + 1 < |t| && (t[k + 1] == '+' || t[k + 1] == '-') then k + 2 else k + 1
  }

  /** The JSON number grammar: `-? (0 | [1-9][0-9]*) (. [0-9]+)? ([eE] [+-]? [0-9]+)?`. */
  predicate IsNumberLiteral(t: string) {
    IntStart(t) < |t| && JsString.IsDigit(t[IntStart(t)]) &&
    var j := IntEnd(t);
    (j < |t| && t[j] == '.' ==> j + 1 < |t| && JsString.IsDigit(t[j + 1])) &&
    var k := FracEnd(t, j);
    (k == |t| ||
      ((t[k] == 'e' || t[k] == 'E') &&
        var m := ExpDigits(t, k);
        m < |t| && m + DigitRun(t[m..]) == |t|))
  }

  /**
   * The length of the number at the start of `s`. The number-character run is
   * taken whole: any shorter literal would be followed by a number character,
   * which no JSON grammar rule accepts after a value.
   */
  function NumberLength(s: string): (r: Option<nat>)
    ensures r.Some? ==> 1 <= r.value <= |s| && IsNumberLiteral(s[..r.value])
  {
    var n := NumberCharRun(s);
    if n > 0 && IsNumberLiteral(s[..n]) then Some(n) else None
  }

  /**
   * A value at the start of `s` (white space already skipped): the value
   * and the text after it.
   */
  function ParseValue(s: string): (r: Option<(Value, string)>)
    ensures r.Some? ==> |r.value.1| < |s|
    decreases |s|, 0
  {
    if |s| >= 4 && s[..4] == "true" then Some((Bool(true), s[4..]))
    else if |s| >= 5 && s[..5] == "false" then Some((Bool(false), s[5..]))
    else if |s| >= 4 && s[..4] == "null" then Some((Null, s[4..]))
    else if s != [] && s[0] == '"' then
      match StringBody(s[1..])
      case None => None
      case Some((t, rest)) => Some((Str(t), rest))
    else if s != [] && s[0] == '[' then
      var t := SkipWs(s[1..]);
      if t != [] && t[0] == ']' then Some((Arr([]), t[1..]))
      else
        match ParseElements(t, [])
        case None => None
        case Some((items, rest)) => Some((Arr(items), rest))
    else if s != [] && s[0] == '{' then
      var t := SkipWs(s[1..]);
      if t != [] && t[0] == '}' then Some((Object([]), t[1..]))
      else
        match ParseMembers(t, [])
        case None => None
        case Some((ms, rest)) => Some((Object(ms), rest))
    else
      match NumberLength(s)
      case None => None
      case Some(n) => Some((Number(s[..n]), s[n..]))
  }

  /**
   * Array elements from the first element on, appended to `acc`; returns
   * the elements and the text after the closing `]`.
   */
  function ParseElements(s: string, acc: seq<Value>): (r: Option<(seq<Value>, string)>)
    ensures r.Some? ==> |r.value.1| < |s|
    decreases |s|, 1
  {
    match ParseValue(s)
    case None => None
    case Some((v, r1)) =>
      var r2 := SkipWs(r1);
      if r2 != [] && r2[0] == ',' then ParseElements(SkipWs(r2[1..]), acc + [v])
      else if r2 != [] && r2[0] == ']' then Some((acc + [v], r2[1..]))
      else None
  }

  /**
   * Object members from a key's opening quote on, assigned into `acc` in
   * order (a repeated key keeps its first place and takes the later value);
   * returns the object and the text after the closing `}`.
   */
  function ParseMembers(s: string, acc: Obj<Value>): (r: Option<(Obj<Value>, string)>)
    ensures r.Some? ==> |r.value.1| < |s|
    decreases |s|, 1
  {
    if s == [] || s[0] != '"' then None
    else match StringBody(s[1..])
      case None => None
      case Some((k, r1)) =>
        var r2 := SkipWs(r1);
        if r2 == [] || r2[0] != ':' then None
        else match ParseValue(SkipWs(r2[1..]))
          case None => None
          case Some((v, r3)) =>
            var r4 := SkipWs(r3);
            if r4 != [] && r4[0] == ',' then ParseMembers(SkipWs(r4[1..]), Put(acc, k, v))
            else if r4 != [] && r4[0] == '}' then Some((Put(acc, k, v), r4[1..]))
            else None
  }

  /** `JSON.parse(text)`; `None` where it throws SyntaxError. */
  function Parse(text: string): Option<Value> {
    match ParseValue(SkipWs(text))
    case None => None
    case Some((v, rest)) => if SkipWs(rest) == [] then Some(v) else None
  }

  // ---------------------------------------------------------------- round trip

  /** A value JSON.stringify writes and JSON.parse reads back unchanged. */
  predicate WellFormed(v: Value)
    decreases v
  {
    match v
    case Number(t) => IsNumberLiteral(t)
    case Arr(items) => ItemsWellFormed(items)
    case Object(ms) => Unique(ms) && MembersWellFormed(ms)
    case _ => true
  }

  predicate ItemsWellFormed(items: seq<Value>)
    decreases items
  {
    items == [] || (WellFormed(items[0]) && ItemsWellFormed(items[1..]))
  }

  predicate MemberWellFormed(m: (string, Value))
    decreases m
  {
    WellFormed(m.1)
  }

  predicate MembersWellFormed(ms: Obj<Value>)
    decreases ms
  {
    ms == [] || (MemberWellFormed(ms[0]) && MembersWellFormed(ms[1..]))
  }

  lemma HexLowerRoundTrip(n: nat)
    requires n < 16
    ensures Uri.HexValue(HexLower(n)) == Some(n)
  {
  }

  lemma StringBodyOfEscapeChar(c: char, u: string)
    ensures StringBody(EscapeChar(c) + u) == ConsChar(c, StringBody(u))
  {
    var n := c as int;
    if c == '"' || c == '\\' || n == 0x08 || n == 0x0C || c == '\n' || c == '\r' || c == '\t' {
      ShortEscapeChar(c, u);
    } else if n < 0x20 {
      ControlEscapeChar(c, u);
    } else {
      var s := EscapeChar(c) + u;
      assert s[0] == c && s[1..] == u;
    }
  }

  /** A character with a two-character escape reads back as itself. */
  lemma ShortEscapeChar(c: char, u: string)
    requires var n := c as int;
      c == '"' || c == '\\' || n == 0x08 || n == 0x0C || c == '\n' || c == '\r' || c == '\t'
    ensures StringBody(EscapeChar(c) + u) == ConsChar(c, StringBody(u))
  {
    var s := EscapeChar(c) + u;
    assert |EscapeChar(c)| == 2;
    assert s[0] == '\\' && s[1] == EscapeChar(c)[1] && s[2..] == u;
  }

  /** A control character written as `\u00XX` reads back as itself. */
  lemma ControlEscapeChar(c: char, u: string)
    requires var n := c as int;
      n < 0x20 && !(n == 0x08 || n == 0x0C || c == '\n' || c == '\r' || c == '\t')
    ensures StringBody(EscapeChar(c) + u) == ConsChar(c, StringBody(u))
  {
    var n := c as int;
    var s := EscapeChar(c) + u;
    var digits := ['0', '0', HexLower(n / 16), HexLower(n % 16)];
    assert s == "\\u" + digits + u;
    assert s[2..] == digits + u;
    Hex4Control(n, u);
    assert s[6..] == u;
    UnicodeEscapeAt(s, n);
  }

  /** The four hex digits JSON.stringify writes for a control character. */
  lemma Hex4Control(n: nat, u: string)
    requires n < 0x20
    ensures Hex4(['0', '0', HexLower(n / 16), HexLower(n % 16)] + u) == Some(n)
  {
    HexLowerRoundTrip(n / 16);
    HexLowerRoundTrip(n % 16);
    var t := ['0', '0', HexLower(n / 16), HexLower(n % 16)] + u;
    assert t[0] == '0' && t[1] == '0' && t[2] == HexLower(n / 16) && t[3] == HexLower(n % 16);
  }

  /** A `\uXXXX` escape of a code unit that is no surrogate. */
  lemma UnicodeEscapeAt(s: string, n: nat)
    requires |s| >= 6 && s[0] == '\\' && s[1] == 'u' && Hex4(s[2..]) == Some(n)
    requires n < 0xD800
    ensures StringBody(s) == ConsChar(n as char, StringBody(s[6..]))
  {
  }

  /** The body of a string literal reads back as the string. */
  lemma {:induction false} StringBodyOfEscape(s: string, rest: string)
    ensures StringBody(Escape(s) + "\"" + rest) == Some((s, rest))
  {
    var x := Escape(s) + "\"" + rest;
    if s == [] {
      assert x == "\"" + rest;
      assert x[0] == '"' && x[1..] == rest;
    } else {
      var e, t := EscapeChar(s[0]), Escape(s[1..]);
      var u := t + "\"" + rest;
      assert x == e + u by {
        assert Escape(s) == e + t;
        Assoc4(e, t, "\"", rest);
      }
      StringBodyOfEscape(s[1..], rest);
      StringBodyOfEscapeChar(s[0], u);
      assert [s[0]] + s[1..] == s;
    }
  }

  lemma {:induction false} SkipWsNoWs(s: string)
    requires s == [] || !IsWs(s[0])
    ensures SkipWs(s) == s
  {
  }

  /** A run of digits starting at `a` consists of number characters. */
  lemma DigitsAt(t: string, a: nat, n: nat)
    requires a <= |t| && n <= DigitRun(t[a..])
    ensures forall p :: a <= p < a + n ==> NumberChar(t[p])
  {
    forall p | a <= p < a + n ensures NumberChar(t[p]) {
      assert t[a..][p - a] == t[p];
    }
  }

  lemma IntChars(t: string)
    requires IntStart(t) < |t| && JsString.IsDigit(t[IntStart(t)])
    ensures forall p :: 0 <= p < IntEnd(t) ==> NumberChar(t[p])
  {
    var i := IntStart(t);
    if t[i] != '0' {
      DigitsAt(t, i, DigitRun(t[i..]));
    }
  }

  lemma FracChars(t: string, j: nat)
    requires j <= |t|
    ensures forall p :: j <= p < FracEnd(t, j) ==> NumberChar(t[p])
  {
    if j < |t| && t[j] == '.' {
      DigitsAt(t, j + 1, DigitRun(t[j + 1..]));
    }
  }

  lemma ExpChars(t: string, k: nat)
    requires k < |t| && (t[k] == 'e' || t[k] == 'E')
    requires ExpDigits(t, k) < |t| && ExpDigits(t, k) + DigitRun(t[ExpDigits(t, k)..]) == |t|
    ensures forall p :: k <= p < |t| ==> NumberChar(t[p])
  {
    var m := ExpDigits(t, k);
    DigitsAt(t, m, DigitRun(t[m..]));
  }

  /** Every character of a number literal is a number character. */
  lemma NumberLiteralChars(t: string)
    requires IsNumberLiteral(t)
    ensures forall p :: 0 <= p < |t| ==> NumberChar(t[p])
  {
    var j := IntEnd(t);
    var k := FracEnd(t, j);
    IntChars(t);
    FracChars(t, j);
    if k < |t| {
      ExpChars(t, k);
    }
  }

  lemma {:induction false} NumberCharRunPrefix(s: string, n: nat)
    requires n <= |s|
    requires forall p :: 0 <= p < n ==> NumberChar(s[p])
    requires n == |s| || !NumberChar(s[n])
    ensures NumberCharRun(s) == n
  {
    if n > 0 {
      NumberCharRunPrefix(s[1..], n - 1);
    }
  }

  /** A number literal followed by a character that cannot continue it is read whole. */
  lemma NumberLengthOfLiteral(t: string, rest: string)
    requires IsNumberLiteral(t)
    requires rest == [] || !NumberChar(rest[0])
    ensures NumberLength(t + rest) == Some(|t|)
  {
    NumberLiteralChars(t);
    var s := t + rest;
    assert forall p :: 0 <= p < |t| ==> s[p] == t[p];
    NumberCharRunPrefix(s, |t|);
    assert s[..|t|] == t;
  }

  /** Where the text of a value can end: the end of input, a separator or a closing bracket. */
  predicate EndsValue(rest: string) {
    rest == [] || rest[0] == ',' || rest[0] == '}' || rest[0] == ']'
  }

  /** Rendered text starts with a character that begins a value and is not white space. */
  lemma RenderStart(v: Value)
    requires WellFormed(v)
    ensures Render(v) != [] && !IsWs(Render(v)[0])
    ensures Render(v)[0] != ']' && Render(v)[0] != '}'
  {
    match v
    case Number(t) => NumberLiteralChars(t);
    case _ =>
  }

  lemma ParseValueOfTrue(rest: string)
    ensures ParseValue("true" + rest) == Some((Bool(true), rest))
  {
    var s := "true" + rest;
    assert s[..4] == "true" && s[4..] == rest;
  }

  lemma ParseValueOfFalse(rest: string)
    ensures ParseValue("false" + rest) == Some((Bool(false), rest))
  {
    var s := "false" + rest;
    assert s[0] == 'f';
    assert s[..5] == "false" && s[5..] == rest;
  }

  lemma ParseValueOfNull(rest: string)
    ensures ParseValue("null" + rest) == Some((Null, rest))
  {
    var s := "null" + rest;
    assert s[0] == 'n';
    assert s[..4] == "null" && s[4..] == rest;
  }

  /** Text that does not open with `t`, `f` or `n` is none of the three literals. */
  lemma NoLiteralAt(s: string)
    requires s != [] && s[0] != 't' && s[0] != 'f' && s[0] != 'n'
    ensures !(|s| >= 4 && s[..4] == "true")
    ensures !(|s| >= 5 && s[..5] == "false")
    ensures !(|s| >= 4 && s[..4] == "null")
  {
    if |s| >= 4 { assert s[..4][0] == s[0]; }
    if |s| >= 5 { assert s[..5][0] == s[0]; }
  }

  /** How ParseValue reads text that opens with a quote. */
  lemma ParseValueAtQuote(s: string)
    requires s != [] && s[0] == '"'
    ensures ParseValue(s) ==
      match StringBody(s[1..])
      case None => None
      case Some((t, rest)) => Some((Str(t), rest))
  {
    NoLiteralAt(s);
  }

  /** How ParseValue reads text that opens with no literal, quote or bracket. */
  lemma ParseValueAtNumber(s: string)
    requires s != [] && s[0] != 't' && s[0] != 'f' && s[0] != 'n'
    requires s[0] != '"' && s[0] != '[' && s[0] != '{'
    ensures ParseValue(s) ==
      match NumberLength(s)
      case None => None
      case Some(n) => Some((Number(s[..n]), s[n..]))
  {
    NoLiteralAt(s);
  }

  /** How ParseValue reads text that opens with `[`. */
  lemma ParseValueAtBracket(s: string)
    requires s != [] && s[0] == '['
    ensures ParseValue(s) ==
      var t := SkipWs(s[1..]);
      if t != [] && t[0] == ']' then Some((Arr([]), t[1..]))
      else match ParseElements(t, [])
        case None => None
        case Some((items, rest)) => Some((Arr(items), rest))
  {
    NoLiteralAt(s);
  }

  /** How ParseValue reads text that opens with `{`. */
  lemma ParseValueAtBrace(s: string)
    requires s != [] && s[0] == '{'
    ensures ParseValue(s) ==
      var t := SkipWs(s[1..]);
      if t != [] && t[0] == '}' then Some((Object([]), t[1..]))
      else match ParseMembers(t, [])
        case None => None
        case Some((ms, rest)) => Some((Object(ms), rest))
  {
    NoLiteralAt(s);
  }

  lemma ParseValueOfQuote(t: string, rest: string)
    ensures ParseValue(Quote(t) + rest) == Some((Str(t), rest))
  {
    var s := Quote(t) + rest;
    assert s[0] == '"';
    assert s[1..] == Escape(t) + "\"" + rest;
    ParseValueAtQuote(s);
    StringBodyOfEscape(t, rest);
  }

  lemma ParseValueOfNumber(t: string, rest: string)
    requires IsNumberLiteral(t)
    requires EndsValue(rest)
    ensures ParseValue(t + rest) == Some((Number(t), rest))
  {
    var s := t + rest;
    NumberLengthOfLiteral(t, rest);
    NumberLiteralChars(t);
    assert s[0] == t[0];
    ParseValueAtNumber(s);
    assert s[..|t|] == t && s[|t|..] == rest;
  }

  /** How ParseValue reads text that opens with `[`. */
  lemma ParseValueOfBracket(body: string)
    ensures ParseValue("[" + body) ==
      var t := SkipWs(body);
      if t != [] && t[0] == ']' then Some((Arr([]), t[1..]))
      else match ParseElements(t, [])
        case None => None
        case Some((items, rest)) => Some((Arr(items), rest))
  {
    var s := "[" + body;
    assert s[0] == '[' && s[1..] == body;
    ParseValueAtBracket(s);
  }

  /** How ParseValue reads text that opens with `{`. */
  lemma ParseValueOfBrace(body: string)
    ensures ParseValue("{" + body) ==
      var t := SkipWs(body);
      if t != [] && t[0] == '}' then Some((Object([]), t[1..]))
      else match ParseMembers(t, [])
        case None => None
        case Some((ms, rest)) => Some((Object(ms), rest))
  {
    var s := "{" + body;
    assert s[0] == '{' && s[1..] == body;
    ParseValueAtBrace(s);
  }

  lemma {:induction false} ParseValueOfRender(v: Value, rest: string)
    requires WellFormed(v)
    requires EndsValue(rest)
    ensures ParseValue(Render(v) + rest) == Some((v, rest))
    decreases v
  {
    match v
    case Bool(b) => if b { ParseValueOfTrue(rest); } else { ParseValueOfFalse(rest); }
    case Null => ParseValueOfNull(rest);
    case Str(t) => ParseValueOfQuote(t, rest);
    case Number(t) => ParseValueOfNumber(t, rest);
    case Arr(items) =>
      if items != [] {
        ParseElementsOfItems(items, rest, []);
        assert [] + items == items;
      }
      ParseValueOfArr(items, rest);
    case Object(ms) =>
      if ms != [] {
        ParseMembersOfMembers(ms, rest, []);
        SpreadCopy(ms);
      }
      ParseValueOfObject(ms, rest);
  }

  lemma ParseValueOfArr(items: seq<Value>, rest: string)
    requires items != [] ==> ItemsWellFormed(items)
    requires items != [] ==> ParseElements(RenderItems(items) + "]" + rest, []) == Some((items, rest))
    ensures ParseValue(Render(Arr(items)) + rest) == Some((Arr(items), rest))
  {
    var body := RenderItems(items) + "]" + rest;
    assert Render(Arr(items)) + rest == "[" + body;
    ParseValueOfBracket(body);
    if items == [] {
      assert body == "]" + rest;
    } else {
      ItemsStart(items);
      SkipWsNoWs(body);
    }
  }

  lemma ParseValueOfObject(ms: Obj<Value>, rest: string)
    requires ms != [] ==> ParseMembers(RenderMembers(ms) + "}" + rest, []) == Some((ms, rest))
    ensures ParseValue(Render(Object(ms)) + rest) == Some((Object(ms), rest))
  {
    var body := RenderMembers(ms) + "}" + rest;
    assert Render(Object(ms)) + rest == "{" + body by {
      Assoc4("{", RenderMembers(ms), "}", rest);
    }
    ParseValueOfBrace(body);
    if ms == [] {
      assert body == "}" + rest;
    } else {
      MembersStart(ms);
      SkipWsNoWs(body);
    }
  }

  lemma ItemsStart(items: seq<Value>)
    requires items != [] && ItemsWellFormed(items)
    ensures RenderItems(items) != [] && !IsWs(RenderItems(items)[0]) && RenderItems(items)[0] != ']'
  {
    RenderStart(items[0]);
  }

  lemma MembersStart(ms: Obj<Value>)
    requires ms != []
    ensures RenderMembers(ms) != [] && RenderMembers(ms)[0] == '"'
  {
  }

  /** One element of an array and the character after it. */
  lemma ElementsStep(s: string, acc: seq<Value>, v: Value, r1: string)
    requires ParseValue(s) == Some((v, r1))
    ensures ParseElements(s, acc) ==
      var r2 := SkipWs(r1);
      if r2 != [] && r2[0] == ',' then ParseElements(SkipWs(r2[1..]), acc + [v])
      else if r2 != [] && r2[0] == ']' then Some((acc + [v], r2[1..]))
      else None
  {
  }

  /** The text of a one-element array body. */
  lemma LastItemText(items: seq<Value>, rest: string)
    requires |items| == 1
    ensures RenderItems(items) + "]" + rest == Render(items[0]) + ("]" + rest)
  {
  }

  /** The text of a longer array body: its first element, a comma, then the rest. */
  lemma NextItemsText(items: seq<Value>, rest: string)
    requires |items| > 1
    ensures RenderItems(items) + "]" + rest == Render(items[0]) + ("," + (RenderItems(items[1..]) + "]" + rest))
  {
    var a, b := Render(items[0]), RenderItems(items[1..]);
    calc {
      RenderItems(items) + "]" + rest;
      (a + "," + b) + "]" + rest;
      { Assoc5(a, ",", b, "]", rest); }
      a + ("," + b + "]" + rest);
      { Assoc4(",", b, "]", rest); }
      a + ("," + (b + "]" + rest));
    }
  }

  /** The text of a one-member object body. */
  lemma LastMemberText(ms: Obj<Value>, rest: string)
    requires |ms| == 1
    ensures RenderMembers(ms) + "}" + rest == RenderMember(ms[0]) + ("}" + rest)
  {
  }

  /** The text of a longer object body: its first member, a comma, then the rest. */
  lemma NextMembersText(ms: Obj<Value>, rest: string)
    requires |ms| > 1
    ensures RenderMembers(ms) + "}" + rest == RenderMember(ms[0]) + ("," + (RenderMembers(ms[1..]) + "}" + rest))
  {
    var a, b := RenderMember(ms[0]), RenderMembers(ms[1..]);
    calc {
      RenderMembers(ms) + "}" + rest;
      (a + "," + b) + "}" + rest;
      { Assoc5(a, ",", b, "}", rest); }
      a + ("," + b + "}" + rest);
      { Assoc4(",", b, "}", rest); }
      a + ("," + (b + "}" + rest));
    }
  }

  lemma {:induction false} ParseElementsOfItems(items: seq<Value>, rest: string, acc: seq<Value>)
    requires items != [] && ItemsWellFormed(items)
    ensures ParseElements(RenderItems(items) + "]" + rest, acc) == Some((acc + items, rest))
    decreases items
  {
    var v := items[0];
    if |items| == 1 {
      LastItemText(items, rest);
      ParseValueOfRender(v, "]" + rest);
      LastElement(Render(v) + ("]" + rest), v, rest, acc);
      assert acc + items == acc + [v];
    } else {
      var next := RenderItems(items[1..]) + "]" + rest;
      NextItemsText(items, rest);
      ItemsStart(items[1..]);
      ParseElementsOfItems(items[1..], rest, acc + [v]);
      assert acc + [v] + items[1..] == acc + items;
      ParseValueOfRender(v, "," + next);
      NextElement(Render(v) + ("," + next), v, next, acc, acc + items, rest);
    }
  }

  lemma LastElement(s: string, v: Value, rest: string, acc: seq<Value>)
    requires ParseValue(s) == Some((v, "]" + rest))
    ensures ParseElements(s, acc) == Some((acc + [v], rest))
  {
    var tail := "]" + rest;
    ElementsStep(s, acc, v, tail);
    SkipWsNoWs(tail);
    assert tail[1..] == rest;
  }

  lemma NextElement(s: string, v: Value, next: string, acc: seq<Value>, result: seq<Value>, rest: string)
    requires ParseValue(s) == Some((v, "," + next))
    requires next != [] && !IsWs(next[0])
    requires ParseElements(next, acc + [v]) == Some((result, rest))
    ensures ParseElements(s, acc) == Some((result, rest))
  {
    var tail := "," + next;
    ElementsStep(s, acc, v, tail);
    SkipWsNoWs(tail);
    assert tail[1..] == next;
    SkipWsNoWs(next);
  }

  /** One member of an object and the character after it. */
  lemma MembersStep(s: string, acc: Obj<Value>, k: string, r1: string, v: Value, r3: string)
    requires s != [] && s[0] == '"' && StringBody(s[1..]) == Some((k, r1))
    requires SkipWs(r1) != [] && SkipWs(r1)[0] == ':'
    requires ParseValue(SkipWs(SkipWs(r1)[1..])) == Some((v, r3))
    ensures ParseMembers(s, acc) ==
      var r4 := SkipWs(r3);
      if r4 != [] && r4[0] == ',' then ParseMembers(SkipWs(r4[1..]), Put(acc, k, v))
      else if r4 != [] && r4[0] == '}' then Some((Put(acc, k, v), r4[1..]))
      else None
  {
  }

  /** The text of one member: its opening quote, then the escaped key and the rest. */
  lemma MemberOpen(m: (string, Value), tail: string)
    ensures var s := RenderMember(m) + tail;
      s != [] && s[0] == '"' && s[1..] == Escape(m.0) + "\"" + (":" + Render(m.1) + tail)
  {
    var s := RenderMember(m) + tail;
    assert s == "\"" + (Escape(m.0) + "\"" + (":" + Render(m.1) + tail));
  }

  /** After the key and its colon, the member's value reads back. */
  lemma MemberValue(m: (string, Value), tail: string)
    requires MemberWellFormed(m) && EndsValue(tail)
    ensures var r1 := ":" + Render(m.1) + tail;
      SkipWs(r1) == r1 && r1[0] == ':' && ParseValue(SkipWs(r1[1..])) == Some((m.1, tail))
    decreases m, 0
  {
    ColonText(m.1, tail);
    ParseValueOfRender(m.1, tail);
  }

  /** The colon before a rendered value, and the value's text after it. */
  lemma ColonText(v: Value, tail: string)
    requires WellFormed(v)
    ensures var r1 := ":" + Render(v) + tail;
      SkipWs(r1) == r1 && r1[0] == ':' && SkipWs(r1[1..]) == Render(v) + tail
  {
    var r1 := ":" + Render(v) + tail;
    var r3 := Render(v) + tail;
    SkipWsNoWs(r1);
    assert r1[1..] == r3;
    RenderStart(v);
    SkipWsNoWs(r3);
  }

  /** One member: `"k":v` followed by `,` or `}`. */
  lemma ParseMembersStep(m: (string, Value), tail: string, acc: Obj<Value>)
    requires MemberWellFormed(m) && EndsValue(tail) && tail != []
    ensures ParseMembers(RenderMember(m) + tail, acc) ==
      if tail[0] == ',' then ParseMembers(SkipWs(tail[1..]), Put(acc, m.0, m.1))
      else if tail[0] == '}' then Some((Put(acc, m.0, m.1), tail[1..]))
      else None
    decreases m, 1
  {
    var s := RenderMember(m) + tail;
    var r1 := ":" + Render(m.1) + tail;
    MemberOpen(m, tail);
    StringBodyOfEscape(m.0, r1);
    MemberValue(m, tail);
    MembersStep(s, acc, m.0, r1, m.1, tail);
    SkipWsNoWs(tail);
  }

  lemma {:induction false} ParseMembersOfMembers(ms: Obj<Value>, rest: string, acc: Obj<Value>)
    requires ms != [] && MembersWellFormed(ms)
    ensures ParseMembers(RenderMembers(ms) + "}" + rest, acc) == Some((PutAll(acc, ms), rest))
    decreases ms, 1
  {
    PutAllFirst(acc, ms);
    if |ms| == 1 {
      LastMemberText(ms, rest);
      assert ms[1..] == [];
      LastMember(ms[0], rest, acc);
    } else {
      var next := RenderMembers(ms[1..]) + "}" + rest;
      var acc' := Put(acc, ms[0].0, ms[0].1);
      ParseMembersOfMembers(ms[1..], rest, acc');
      MembersStart(ms[1..]);
      NextMembersText(ms, rest);
      NextMember(ms[0], next, acc, PutAll(acc', ms[1..]), rest);
    }
  }

  /** The closing member of an object. */
  lemma LastMember(m: (string, Value), rest: string, acc: Obj<Value>)
    requires MemberWellFormed(m)
    ensures ParseMembers(RenderMember(m) + ("}" + rest), acc) == Some((Put(acc, m.0, m.1), rest))
    decreases m, 2
  {
    var tail := "}" + rest;
    ParseMembersStep(m, tail, acc);
    assert tail[1..] == rest;
  }

  /** A member followed by a comma and the remaining members. */
  lemma NextMember(m: (string, Value), next: string, acc: Obj<Value>, result: Obj<Value>, rest: string)
    requires MemberWellFormed(m) && next != [] && next[0] == '"'
    requires ParseMembers(next, Put(acc, m.0, m.1)) == Some((result, rest))
    ensures ParseMembers(RenderMember(m) + ("," + next), acc) == Some((result, rest))
    decreases m, 2
  {
    var tail := "," + next;
    ParseMembersStep(m, tail, acc);
    assert tail[1..] == next;
    SkipWsNoWs(next);
  }

  /** The text of an object opens with `{`. */
  lemma StringifyStart(o: Obj<Value>)
    ensures Stringify(o) != [] && Stringify(o)[0] == '{'
  {
    assert Stringify(o) == "{" + (RenderMembers(o) + "}");
  }

  /** `JSON.parse("{}")` is the empty object. */
  lemma ParseEmptyObject()
    ensures Parse("{}") == Some(Object([]))
  {
    assert Stringify([]) == "{}";
    ParseStringify([]);
  }

  /** `JSON.parse(JSON.stringify(v))` gives back `v`. */
  lemma ParseRender(v: Value)
    requires WellFormed(v)
    ensures Parse(Render(v)) == Some(v)
  {
    RenderStart(v);
    SkipWsNoWs(Render(v));
    ParseValueOfRender(v, "");
    assert Render(v) + "" == Render(v);
  }

  /** The same for the object form that savePolicies writes. */
  lemma ParseStringify(o: Obj<Value>)
    requires Unique(o) && MembersWellFormed(o)
    ensures Parse(Stringify(o)) == Some(Object(o))
  {
    ParseRender(Object(o));
  }

  // --------------------------------------------------- what parsing produces

  lemma {:induction false} ItemsAppend(items: seq<Value>, v: Value)
    requires ItemsWellFormed(items) && WellFormed(v)
    ensures ItemsWellFormed(items + [v])
  {
    if items != [] {
      assert (items + [v])[1..] == items[1..] + [v];
      ItemsAppend(items[1..], v);
    } else {
      assert ([] + [v])[1..] == [];
    }
  }

  lemma {:induction false} MembersPut(o: Obj<Value>, k: string, v: Value)
    requires MembersWellFormed(o) && WellFormed(v)
    ensures MembersWellFormed(Put(o, k, v))
  {
    if o != [] && o[0].0 != k {
      MembersPut(o[1..], k, v);
      assert Put(o, k, v)[1..] == Put(o[1..], k, v);
    }
  }

  /** The recursive well-formedness of a list is well-formedness of each element. */
  lemma {:induction false} ItemsWellFormedEach(items: seq<Value>)
    ensures ItemsWellFormed(items) <==> forall i :: 0 <= i < |items| ==> WellFormed(items[i])
  {
    if items != [] {
      ItemsWellFormedEach(items[1..]);
      assert forall i :: 1 <= i < |items| ==> items[i] == items[1..][i - 1];
    }
  }

  lemma {:induction false} MembersWellFormedEach(ms: Obj<Value>)
    ensures MembersWellFormed(ms) <==> forall i :: 0 <= i < |ms| ==> WellFormed(ms[i].1)
  {
    if ms != [] {
      MembersWellFormedEach(ms[1..]);
      assert forall i :: 1 <= i < |ms| ==> ms[i] == ms[1..][i - 1];
    }
  }

  lemma {:induction false} MembersPutAll(o: Obj<Value>, entries: Obj<Value>)
    requires MembersWellFormed(o) && MembersWellFormed(entries)
    ensures MembersWellFormed(PutAll(o, entries))
    decreases |entries|
  {
    if entries != [] {
      var init := entries[..|entries| - 1];
      var last := entries[|entries| - 1];
      MembersWellFormedEach(entries);
      MembersWellFormedEach(init);
      assert forall i :: 0 <= i < |init| ==> init[i] == entries[i];
      MembersPutAll(o, init);
      MembersPut(PutAll(o, init), last.0, last.1);
    }
  }

  lemma {:induction false} ParseValueWellFormed(s: string)
    requires ParseValue(s).Some?
    ensures WellFormed(ParseValue(s).value.0)
    decreases |s|, 0
  {
    if |s| >= 4 && s[..4] == "true" {
    } else if |s| >= 5 && s[..5] == "false" {
    } else if |s| >= 4 && s[..4] == "null" {
    } else if s != [] && s[0] == '"' {
    } else if s != [] && s[0] == '[' {
      var t := SkipWs(s[1..]);
      if !(t != [] && t[0] == ']') {
        ParseElementsWellFormed(t, []);
      }
    } else if s != [] && s[0] == '{' {
      var t := SkipWs(s[1..]);
      if !(t != [] && t[0] == '}') {
        ParseMembersWellFormed(t, []);
      }
    }
  }

  lemma {:induction false} ParseElementsWellFormed(s: string, acc: seq<Value>)
    requires ItemsWellFormed(acc)
    requires ParseElements(s, acc).Some?
    ensures ItemsWellFormed(ParseElements(s, acc).value.0)
    decreases |s|, 1
  {
    var (v, r1) := ParseValue(s).value;
    var r2 := SkipWs(r1);
    ParseValueWellFormed(s);
    ItemsAppend(acc, v);
    if r2 != [] && r2[0] == ',' {
      ParseElementsWellFormed(SkipWs(r2[1..]), acc + [v]);
    }
  }

  lemma {:induction false} ParseMembersWellFormed(s: string, acc: Obj<Value>)
    requires Unique(acc) && MembersWellFormed(acc)
    requires ParseMembers(s, acc).Some?
    ensures Unique(ParseMembers(s, acc).value.0) && MembersWellFormed(ParseMembers(s, acc).value.0)
    decreases |s|, 1
  {
    var (k, r1) := StringBody(s[1..]).value;
    var r2 := SkipWs(r1);
    var (v, r3) := ParseValue(SkipWs(r2[1..])).value;
    var r4 := SkipWs(r3);
    ParseValueWellFormed(SkipWs(r2[1..]));
    UniquePut(acc, k, v);
    MembersPut(acc, k, v);
    if r4 != [] && r4[0] == ',' {
      ParseMembersWellFormed(SkipWs(r4[1..]), Put(acc, k, v));
    }
  }

  /** What JSON.parse returns is well formed: its objects have distinct keys. */
  lemma ParseWellFormed(text: string)
    requires Parse(text).Some?
    ensures WellFormed(Parse(text).value)
  {
    ParseValueWellFormed(SkipWs(text));
  }
}
