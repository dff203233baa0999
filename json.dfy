/** JSON values and `json.dumps` with Python's default settings: separators
    `", "` and `": "`, keys in insertion order, `ensure_ascii` escaping.
    The client uses `json.dumps(value)` as the analytics key of a flag value.
    `Parse` reads back exactly what `Dumps` writes; the round trip shows that
    distinct values never share a key, so `null` and the string `"null"`, or
    `true` and `1`, are tallied apart. */
module Json {
  import opened Wrappers
  import opened Numerals

  /** A JSON document as Python's `json` module decodes it: `None`, `bool`,
      `int`, `str`, `list` and `dict` (entries in insertion order). */
  datatype Value =
    | Null
    | Bool(b: bool)
    | Int(i: int)
    | Str(s: string)
    | Arr(items: seq<Value>)
    | Obj(members: seq<Member>)

  datatype Member = Member(key: string, value: Value)

  // ---------------------------------------------------------------- writer

  /** One character of a string literal: `"` and `\` and the control
      characters escaped, printable ASCII as is, anything else as `\uXXXX`
      (a surrogate pair above U+FFFF). */
  function EscapeChar(c: char): (t: string)
    ensures |t| >= 1 && t[0] != '"'
  {
    if c == '"' then "\\\""
    else if c == '\\' then "\\\\"
    else if c == '\n' then "\\n"
    else if c == '\r' then "\\r"
    else if c == '\t' then "\\t"
    else if c as int == 0x08 then "\\b"
    else if c as int == 0x0C then "\\f"
    else if ' ' <= c <= '~' then [c]
    else if c as int < 0x1_0000 then "\\u" + Hex4(c as int)
    else
      var m := c as int - 0x1_0000;
      "\\u" + Hex4(0xD800 + m / 0x400) + "\\u" + Hex4(0xDC00 + m % 0x400)
  }

  function Escape(s: string): string
    decreases |s|
  {
    if s == [] then "" else EscapeChar(s[0]) + Escape(s[1..])
  }

  function Quoted(s: string): string
  {
    "\"" + Escape(s) + "\""
  }

  /** `json.dumps(v)`. */
  function Dumps(v: Value): (t: string)
    ensures |t| > 0
    ensures t[0] == '"' <==> v.Str?
    ensures t[0] == '[' <==> v.Arr?
    ensures t[0] == '{' <==> v.Obj?
  {
    match v
    case Null => "null"
    case Bool(b) => if b then "true" else "false"
    case Int(i) => IntToDecimal(i)
    case Str(s) => Quoted(s)
    case Arr(items) => "[" + DumpsItems(items) + "]"
    case Obj(members) => "{" + DumpsMembers(members) + "}"
  }

  function DumpsItems(items: seq<Value>): string
  {
    if |items| == 0 then ""
    else if |items| == 1 then Dumps(items[0])
    else Dumps(items[0]) + ", " + DumpsItems(items[1..])
  }

  function DumpsMember(m: Member): string
  {
    Quoted(m.key) + ": " + Dumps(m.value)
  }

  function DumpsMembers(members: seq<Member>): string
  {
    if |members| == 0 then ""
    else if |members| == 1 then DumpsMember(members[0])
    else DumpsMember(members[0]) + ", " + DumpsMembers(members[1..])
  }

  // ---------------------------------------------------------------- reader

  /** The code unit of a `\u` escape (the four hex digits after it), and what follows. */
  function ReadHex4(s: string): (r: Option<(nat, string)>)
    ensures r.Some? ==> r.value.0 < 0x1_0000 && |r.value.1| == |s| - 4
  {
    if |s| < 4 || !AllHexDigits(s[..4]) then None else Some((Hex4Value(s[..4]), s[4..]))
  }

  /** The character a `\u` escape denotes, given the text after `\u`; a high
      surrogate must be followed by `\u` and a low surrogate. */
  function ParseUnicodeEscape(s: string): (r: Option<(char, string)>)
    ensures r.Some? ==> |r.value.1| < |s|
  {
    var (hi, t) :- ReadHex4(s);
    if 0xD800 <= hi < 0xDC00 then
      if |t| < 2 || t[0] != '\\' || t[1] != 'u' then None
      else
        var (lo, u) :- ReadHex4(t[2..]);
        if lo < 0xDC00 || lo >= 0xE000 then None
        else Some(((0x1_0000 + (hi - 0xD800) * 0x400 + (lo - 0xDC00)) as char, u))
    else if 0xDC00 <= hi < 0xE000 then None
    else Some((hi as char, t))
  }

  /** One character of a string literal body: an escape sequence or a raw
      character other than `"`, `\` and the control characters. */
  function ParseChar(s: string): (r: Option<(char, string)>)
    requires |s| > 0
    ensures r.Some? ==> |r.value.1| < |s|
  {
    if s[0] == '\\' then
      if |s| < 2 then None
      else if s[1] == '"' then Some(('"', s[2..]))
      else if s[1] == '\\' then Some(('\\', s[2..]))
      else if s[1] == '/' then Some(('/', s[2..]))
      else if s[1] == 'b' then Some((0x08 as char, s[2..]))
      else if s[1] == 'f' then Some((0x0C as char, s[2..]))
      else if s[1] == 'n' then Some(('\n', s[2..]))
      else if s[1] == 'r' then Some(('\r', s[2..]))
      else if s[1] == 't' then Some(('\t', s[2..]))
      else if s[1] == 'u' then ParseUnicodeEscape(s[2..])
      else None
    else if s[0] == '"' || s[0] < ' ' then None
    else Some((s[0], s[1..]))
  }

  /** The contents of a string literal whose opening quote is already read,
      and the text after its closing quote. */
  function ParseStringBody(s: string): (r: Option<(string, string)>)
    ensures r.Some? ==> |r.value.1| < |s|
    decreases |s|
  {
    if |s| == 0 then None
    else if s[0] == '"' then Some(([], s[1..]))
    else
      var (c, t) :- ParseChar(s);
      var (cs, rest) :- ParseStringBody(t);
      Some(([c] + cs, rest))
  }

  /** The length of the longest prefix of `s` made of decimal digits. */
  function SpanDigits(s: string): (n: nat)
    ensures n <= |s| && AllDigits(s[..n])
    ensures n < |s| ==> !IsDigit(s[n])
    decreases |s|
  {
    if s == [] || !IsDigit(s[0]) then 0
    else
      var n := 1 + SpanDigits(s[1..]);
      assert s[..n] == [s[0]] + s[1..][..n - 1];
      n
  }

  /** A run of decimal digits at the front of `s`, and the text after it. */
  function ParseNat(s: string): (r: Option<(nat, string)>)
    ensures r.Some? ==> |r.value.1| < |s|
  {
    var n := SpanDigits(s);
    if n == 0 then None else Some((DecimalValue(s[..n]), s[n..]))
  }

  function ParseInt(s: string): (r: Option<(Value, string)>)
    ensures r.Some? ==> |r.value.1| < |s|
  {
    if |s| > 0 && s[0] == '-' then
      var (magnitude, rest) :- ParseNat(s[1..]);
      Some((Int(-(magnitude as int)), rest))
    else
      var (magnitude, rest) :- ParseNat(s);
      Some((Int(magnitude), rest))
  }

  /** A value at the front of `s`, and the text after it. */
  function ParseValue(s: string): (r: Option<(Value, string)>)
    ensures r.Some? ==> |r.value.1| < |s|
    decreases |s|, 1
  {
    if |s| == 0 then None
    else if s[0] == 'n' then
      if |s| >= 4 && s[..4] == "null" then Some((Null, s[4..])) else None
    else if s[0] == 't' then
      if |s| >= 4 && s[..4] == "true" then Some((Bool(true), s[4..])) else None
    else if s[0] == 'f' then
      if |s| >= 5 && s[..5] == "false" then Some((Bool(false), s[5..])) else None
    else if s[0] == '"' then
      var (str, rest) :- ParseStringBody(s[1..]);
      Some((Str(str), rest))
    else if s[0] == '-' || IsDigit(s[0]) then ParseInt(s)
    else if s[0] == '[' then
      if |s| >= 2 && s[1] == ']' then Some((Arr([]), s[2..]))
      else
        var (items, rest) :- ParseItems(s[1..]);
        Some((Arr(items), rest))
    else if s[0] == '{' then
      if |s| >= 2 && s[1] == '}' then Some((Obj([]), s[2..]))
      else
        var (members, rest) :- ParseMembers(s[1..]);
        Some((Obj(members), rest))
    else None
  }

  /** `value (", " value)* "]"`: the items of a non-empty list after its `[`. */
  function ParseItems(s: string): (r: Option<(seq<Value>, string)>)
    ensures r.Some? ==> |r.value.1| < |s|
    decreases |s|, 2
  {
    var (v, t) :- ParseValue(s);
    if |t| >= 1 && t[0] == ']' then Some(([v], t[1..]))
    else if |t| >= 2 && t[..2] == ", " then
      var (vs, rest) :- ParseItems(t[2..]);
      Some(([v] + vs, rest))
    else None
  }

  /** `"key": value (", " "key": value)* "}"`: the entries of a non-empty dict after its `{`. */
  function ParseMembers(s: string): (r: Option<(seq<Member>, string)>)
    ensures r.Some? ==> |r.value.1| < |s|
    decreases |s|, 2
  {
    if |s| == 0 || s[0] != '"' then None
    else
      var (key, t) :- ParseStringBody(s[1..]);
      if |t| < 2 || t[..2] != ": " then None
      else
        var (v, u) :- ParseValue(t[2..]);
        if |u| >= 1 && u[0] == '}' then Some(([Member(key, v)], u[1..]))
        else if |u| >= 2 && u[..2] == ", " then
          var (ms, rest) :- ParseMembers(u[2..]);
          Some(([Member(key, v)] + ms, rest))
        else None
  }

  /** The value a whole text denotes, if it is exactly one value. */
  function Parse(s: string): Option<Value>
  {
    var (v, rest) :- ParseValue(s);
    if rest == [] then Some(v) else None
  }

  // ---------------------------------------------------------------- round trip

  /** What may follow a value for it to be read back unchanged: the digits
      of a number must not run on. */
  predicate Delimited(rest: string) { rest == [] || !IsDigit(rest[0]) }

  lemma ReadHex4Of(n: nat, rest: string)
    requires n < 0x1_0000
    ensures ReadHex4(Hex4(n) + rest) == Some((n, rest))
  {
    var s := Hex4(n) + rest;
    assert s[..4] == Hex4(n) && s[4..] == rest;
  }

  /** The surrogate pair of a supplementary character is well formed and
      recombines to that character. */
  lemma SurrogateSplit(n: int) returns (hi: nat, lo: nat)
    requires 0x1_0000 <= n < 0x11_0000
    ensures hi == 0xD800 + (n - 0x1_0000) / 0x400 && lo == 0xDC00 + (n - 0x1_0000) % 0x400
    ensures 0xD800 <= hi < 0xDC00 && 0xDC00 <= lo < 0xE000
    ensures 0x1_0000 + (hi - 0xD800) * 0x400 + (lo - 0xDC00) == n
  {
    hi, lo := 0xD800 + (n - 0x1_0000) / 0x400, 0xDC00 + (n - 0x1_0000) % 0x400;
  }

  lemma ParseCharUnicode(x: string)
    ensures ParseChar("\\u" + x) == ParseUnicodeEscape(x)
  {
    assert ("\\u" + x)[2..] == x;
  }

  lemma EscapeSupplementaryText(c: char)
    requires c as int >= 0x1_0000
    ensures EscapeChar(c) == "\\u" + Hex4(0xD800 + (c as int - 0x1_0000) / 0x400)
                           + "\\u" + Hex4(0xDC00 + (c as int - 0x1_0000) % 0x400)
  {
  }

  lemma EscapeSupplementary(c: char, hi: nat, lo: nat, rest: string)
    requires c as int >= 0x1_0000
    requires hi == 0xD800 + (c as int - 0x1_0000) / 0x400 && lo == 0xDC00 + (c as int - 0x1_0000) % 0x400
    requires hi < 0x1_0000 && lo < 0x1_0000
    ensures EscapeChar(c) + rest == "\\u" + (Hex4(hi) + ("\\u" + Hex4(lo) + rest))
  {
    EscapeSupplementaryText(c);
  }

  /** A well-formed surrogate pair after `\u` reads back as one character. */
  lemma ParsePairEscape(hi: nat, lo: nat, rest: string)
    requires 0xD800 <= hi < 0xDC00 && 0xDC00 <= lo < 0xE000
    ensures ParseUnicodeEscape(Hex4(hi) + ("\\u" + Hex4(lo) + rest))
         == Some(((0x1_0000 + (hi - 0xD800) * 0x400 + (lo - 0xDC00)) as char, rest))
  {
    var t := "\\u" + Hex4(lo) + rest;
    ReadHex4Of(hi, t);
    assert t[2..] == Hex4(lo) + rest;
    ReadHex4Of(lo, rest);
  }

  lemma ParseSurrogateText(c: char, hi: nat, lo: nat, rest: string)
    requires 0xD800 <= hi < 0xDC00 && 0xDC00 <= lo < 0xE000
    requires 0x1_0000 + (hi - 0xD800) * 0x400 + (lo - 0xDC00) == c as int
    ensures ParseChar("\\u" + (Hex4(hi) + ("\\u" + Hex4(lo) + rest))) == Some((c, rest))
  {
    ParseCharUnicode(Hex4(hi) + ("\\u" + Hex4(lo) + rest));
    ParsePairEscape(hi, lo, rest);
  }

  /** A character above U+FFFF reads back from its surrogate pair. */
  lemma ParseSurrogatePair(c: char, rest: string)
    requires c as int >= 0x1_0000
    ensures ParseChar(EscapeChar(c) + rest) == Some((c, rest))
  {
    var hi, lo := SurrogateSplit(c as int);
    EscapeSupplementary(c, hi, lo, rest);
    ParseSurrogateText(c, hi, lo, rest);
  }

  /** A character written as `\uXXXX` reads back. */
  lemma ParseUnicodeEscapeBmp(c: char, rest: string)
    requires c as int < 0x1_0000 && EscapeChar(c) == "\\u" + Hex4(c as int)
    ensures ParseChar(EscapeChar(c) + rest) == Some((c, rest))
  {
    var s := EscapeChar(c) + rest;
    assert s == "\\u" + Hex4(c as int) + rest;
    assert s[2..][..4] == Hex4(c as int);
    assert s[2..][4..] == rest;
  }

  lemma ParseEscapeChar(c: char, rest: string)
    ensures ParseChar(EscapeChar(c) + rest) == Some((c, rest))
  {
    var n := c as int;
    if n >= 0x1_0000 {
      ParseSurrogatePair(c, rest);
    } else if !(c == '"' || c == '\\' || c == '\n' || c == '\r' || c == '\t' || n == 0x08 || n == 0x0C || ' ' <= c <= '~') {
      ParseUnicodeEscapeBmp(c, rest);
    }
  }

  /** One step of `ParseStringBody`: a character, then the rest of the body. */
  lemma ParseStringBodyStep(s: string, c: char, t: string, cs: string, rest: string)
    requires |s| > 0 && s[0] != '"' && ParseChar(s) == Some((c, t))
    requires ParseStringBody(t) == Some((cs, rest))
    ensures ParseStringBody(s) == Some(([c] + cs, rest))
  {
  }

  lemma ParseEmptyBody(rest: string)
    ensures ParseStringBody("\"" + rest) == Some(([], rest))
  {
    assert ("\"" + rest)[1..] == rest;
  }

  lemma EscapeShape(s: string, rest: string)
    requires s != []
    ensures Escape(s) + "\"" + rest == EscapeChar(s[0]) + (Escape(s[1..]) + "\"" + rest)
  {
  }

  lemma {:induction false} ParseEscape(s: string, rest: string)
    ensures ParseStringBody(Escape(s) + "\"" + rest) == Some((s, rest))
    decreases |s|
  {
    if s == [] {
      assert Escape(s) == "";
      ParseEmptyBody(rest);
    } else {
      var head := EscapeChar(s[0]);
      var tail := Escape(s[1..]) + "\"" + rest;
      EscapeShape(s, rest);
      ParseEscapeChar(s[0], tail);
      ParseEscape(s[1..], rest);
      ParseStringBodyStep(head + tail, s[0], tail, s[1..], rest);
      assert [s[0]] + s[1..] == s;
    }
  }

  lemma {:induction false} SpanOfDigits(d: string, rest: string)
    requires AllDigits(d) && Delimited(rest)
    ensures SpanDigits(d + rest) == |d|
    decreases |d|
  {
    if d != [] {
      assert (d + rest)[1..] == d[1..] + rest;
      SpanOfDigits(d[1..], rest);
    }
  }

  lemma ParseValueInt(s: string)
    requires |s| > 0 && (s[0] == '-' || IsDigit(s[0]))
    ensures ParseValue(s) == ParseInt(s)
  {
  }

  lemma ParseNatDigits(d: string, rest: string)
    requires |d| >= 1 && AllDigits(d) && Delimited(rest)
    ensures ParseNat(d + rest) == Some((DecimalValue(d), rest))
  {
    var t := d + rest;
    SpanOfDigits(d, rest);
    assert t[..|d|] == d && t[|d|..] == rest;
  }

  lemma ParseIntDigits(d: string, rest: string)
    requires |d| >= 1 && AllDigits(d) && Delimited(rest)
    ensures ParseInt(d + rest) == Some((Int(DecimalValue(d)), rest))
  {
    assert (d + rest)[0] == d[0];
    ParseNatDigits(d, rest);
  }

  lemma ParseIntNegative(s: string, d: string, rest: string)
    requires |d| >= 1 && AllDigits(d) && Delimited(rest)
    requires |s| > 0 && s[0] == '-' && s[1..] == d + rest
    ensures ParseInt(s) == Some((Int(-(DecimalValue(d) as int)), rest))
  {
    ParseNatDigits(d, rest);
  }

  lemma NegativeShape(i: int, rest: string)
    requires i < 0
    ensures var s := IntToDecimal(i) + rest;
      |s| > 0 && s[0] == '-' && s[1..] == NatToDecimal(-i) + rest
  {
    var t := IntToDecimal(i);
    assert (t + rest)[1..] == t[1..] + rest;
  }

  lemma ParseNegativeText(s: string, d: string, i: int, rest: string)
    requires |d| >= 1 && AllDigits(d) && DecimalValue(d) == -i && Delimited(rest)
    requires |s| > 0 && s[0] == '-' && s[1..] == d + rest
    ensures ParseValue(s) == Some((Int(i), rest))
  {
    ParseValueInt(s);
    ParseIntNegative(s, d, rest);
  }

  lemma ParseDumpsNegative(i: int, rest: string)
    requires i < 0 && Delimited(rest)
    ensures ParseValue(IntToDecimal(i) + rest) == Some((Int(i), rest))
  {
    DecimalRoundTrip(-i);
    NegativeShape(i, rest);
    ParseNegativeText(IntToDecimal(i) + rest, NatToDecimal(-i), i, rest);
  }

  lemma ParseDumpsInt(i: int, rest: string)
    requires Delimited(rest)
    ensures ParseValue(IntToDecimal(i) + rest) == Some((Int(i), rest))
  {
    if i < 0 {
      ParseDumpsNegative(i, rest);
    } else {
      var d := NatToDecimal(i);
      DecimalRoundTrip(i);
      assert IntToDecimal(i) == d;
      ParseValueInt(d + rest);
      ParseIntDigits(d, rest);
    }
  }

  lemma DumpsStart(v: Value)
    ensures |Dumps(v)| >= 1
    ensures Dumps(v)[0] in "ntf\"-0123456789[{"
  {
    match v
    case Int(i) =>
      var d := NatToDecimal(if i < 0 then -i else i);
      assert i >= 0 ==> IsDigit(d[0]);
    case _ =>
  }

  lemma ParseValueStr(s: string, str: string, rest: string)
    requires |s| > 0 && s[0] == '"' && ParseStringBody(s[1..]) == Some((str, rest))
    ensures ParseValue(s) == Some((Str(str), rest))
  {
  }

  lemma DumpsStrShape(str: string, rest: string)
    ensures var s := Dumps(Str(str)) + rest;
      |s| > 0 && s[0] == '"' && s[1..] == Escape(str) + "\"" + rest
  {
  }

  lemma ParseDumpsStr(str: string, rest: string)
    ensures ParseValue(Dumps(Str(str)) + rest) == Some((Str(str), rest))
  {
    DumpsStrShape(str, rest);
    ParseEscape(str, rest);
    ParseValueStr(Dumps(Str(str)) + rest, str, rest);
  }

  lemma {:induction false} ParseDumps(v: Value, rest: string)
    requires Delimited(rest)
    ensures ParseValue(Dumps(v) + rest) == Some((v, rest))
    decreases v
  {
    var s := Dumps(v) + rest;
    match v
    case Null =>
      assert s[..4] == "null";
    case Bool(b) =>
      if b { assert s[..4] == "true"; } else { assert s[..5] == "false"; }
    case Int(i) =>
      ParseDumpsInt(i, rest);
    case Str(str) =>
      ParseDumpsStr(str, rest);
    case Arr(items) =>
      if |items| > 0 {
        ParseDumpsItems(items, rest);
        ParseDumpsArr(items, rest);
      }
    case Obj(members) =>
      if |members| > 0 {
        ParseDumpsMembers(members, rest);
        ParseDumpsObj(members, rest);
      }
  }

  lemma DumpsArrShape(items: seq<Value>, rest: string)
    requires |items| >= 1
    ensures var s := Dumps(Arr(items)) + rest;
      |s| >= 2 && s[0] == '[' && s[1] != ']' && s[1..] == DumpsItems(items) + "]" + rest
  {
    var body := DumpsItems(items);
    var s := Dumps(Arr(items)) + rest;
    assert s == "[" + (body + "]" + rest);
    DumpsStart(items[0]);
    assert body[0] == Dumps(items[0])[0];
  }

  lemma ParseValueArr(s: string)
    requires |s| >= 2 && s[0] == '[' && s[1] != ']'
    ensures ParseValue(s) == match ParseItems(s[1..])
      case None => None
      case Some((items, rest)) => Some((Arr(items), rest))
  {
  }

  lemma ParseDumpsArr(items: seq<Value>, rest: string)
    requires |items| >= 1
    requires ParseItems(DumpsItems(items) + "]" + rest) == Some((items, rest))
    ensures ParseValue(Dumps(Arr(items)) + rest) == Some((Arr(items), rest))
  {
    DumpsArrShape(items, rest);
    ParseValueArr(Dumps(Arr(items)) + rest);
  }

  lemma DumpsMembersStart(members: seq<Member>)
    requires |members| >= 1
    ensures |DumpsMembers(members)| >= 1 && DumpsMembers(members)[0] == '"'
  {
    var m := DumpsMember(members[0]);
    assert m == "\"" + (Escape(members[0].key) + "\": " + Dumps(members[0].value));
    var tail := if |members| == 1 then "" else ", " + DumpsMembers(members[1..]);
    assert DumpsMembers(members) == m + tail;
  }

  lemma DumpsObjShape(members: seq<Member>, rest: string)
    requires |members| >= 1
    ensures var s := Dumps(Obj(members)) + rest;
      |s| >= 2 && s[0] == '{' && s[1] != '}' && s[1..] == DumpsMembers(members) + "}" + rest
  {
    var body := DumpsMembers(members);
    var s := Dumps(Obj(members)) + rest;
    assert s == "{" + (body + "}" + rest);
    DumpsMembersStart(members);
  }

  lemma ParseValueObj(s: string)
    requires |s| >= 2 && s[0] == '{' && s[1] != '}'
    ensures ParseValue(s) == match ParseMembers(s[1..])
      case None => None
      case Some((members, rest)) => Some((Obj(members), rest))
  {
  }

  lemma ParseDumpsObj(members: seq<Member>, rest: string)
    requires |members| >= 1
    requires ParseMembers(DumpsMembers(members) + "}" + rest) == Some((members, rest))
    ensures ParseValue(Dumps(Obj(members)) + rest) == Some((Obj(members), rest))
  {
    DumpsObjShape(members, rest);
    ParseValueObj(Dumps(Obj(members)) + rest);
  }

  lemma ParseItemsLast(s: string, v: Value, rest: string)
    requires ParseValue(s) == Some((v, "]" + rest))
    ensures ParseItems(s) == Some(([v], rest))
  {
    assert ("]" + rest)[1..] == rest;
  }

  lemma ParseItemsNext(s: string, v: Value, u: string, vs: seq<Value>, rest: string)
    requires ParseValue(s) == Some((v, ", " + u))
    requires ParseItems(u) == Some((vs, rest))
    ensures ParseItems(s) == Some(([v] + vs, rest))
  {
    assert (", " + u)[..2] == ", " && (", " + u)[2..] == u;
  }

  lemma {:induction false} ParseDumpsItems(items: seq<Value>, rest: string)
    requires |items| >= 1
    ensures ParseItems(DumpsItems(items) + "]" + rest) == Some((items, rest))
    decreases items
  {
    if |items| == 1 {
      DumpsItemsOne(items, rest);
      ParseDumps(items[0], "]" + rest);
      ParseItemsLast(DumpsItems(items) + "]" + rest, items[0], rest);
      assert [items[0]] == items;
    } else {
      var u := DumpsItems(items[1..]) + "]" + rest;
      DumpsItemsCons(items, rest);
      ParseDumps(items[0], ", " + u);
      ParseDumpsItems(items[1..], rest);
      ParseItemsNext(DumpsItems(items) + "]" + rest, items[0], u, items[1..], rest);
      assert [items[0]] + items[1..] == items;
    }
  }

  // The sequence facts below are proved apart from the parser: with the
  // parser's definitions in scope the solver would unfold them needlessly.

  lemma DumpsItemsOne(items: seq<Value>, rest: string)
    requires |items| == 1
    ensures DumpsItems(items) + "]" + rest == Dumps(items[0]) + ("]" + rest)
  {
  }

  lemma DumpsItemsCons(items: seq<Value>, rest: string)
    requires |items| >= 2
    ensures DumpsItems(items) + "]" + rest == Dumps(items[0]) + (", " + (DumpsItems(items[1..]) + "]" + rest))
  {
    var head, tail := Dumps(items[0]), DumpsItems(items[1..]);
    assert DumpsItems(items) == head + ", " + tail;
    Reassociate(head, ", ", tail, "]", rest);
  }

  lemma Reassociate(a: string, sep: string, b: string, close: string, rest: string)
    ensures (a + sep + b) + close + rest == a + (sep + (b + close + rest))
  {
  }

  lemma EntryShape(k: string, d: string, after: string)
    ensures var s := "\"" + k + "\": " + d + after;
      var t := ": " + d + after;
      |s| >= 1 && s[0] == '"' && s[1..] == k + "\"" + t && |t| >= 2 && t[..2] == ": " && t[2..] == d + after
  {
  }

  /** The text after the first entry of a non-empty dict. */
  function AfterFirstMember(members: seq<Member>, rest: string): string
    requires |members| >= 1
  {
    if |members| == 1 then "}" + rest else ", " + DumpsMembers(members[1..]) + "}" + rest
  }

  lemma Regroup(k: string, d: string, tail: string, rest: string)
    ensures ("\"" + k + "\"" + ": " + d + tail) + "}" + rest == "\"" + k + "\": " + d + (tail + "}" + rest)
  {
  }

  lemma DumpsMembersHead(members: seq<Member>)
    requires |members| >= 1
    ensures DumpsMembers(members) ==
      "\"" + Escape(members[0].key) + "\"" + ": " + Dumps(members[0].value) +
      (if |members| == 1 then "" else ", " + DumpsMembers(members[1..]))
  {
  }

  lemma AfterFirstMemberShape(members: seq<Member>, rest: string)
    requires |members| >= 1
    ensures var after := AfterFirstMember(members, rest);
      Delimited(after) &&
      (|members| == 1 ==> |after| >= 1 && after[0] == '}' && after[1..] == rest) &&
      (|members| > 1 ==> |after| >= 2 && after[0] == ',' && after[..2] == ", " &&
                         after[2..] == DumpsMembers(members[1..]) + "}" + rest)
  {
    if |members| > 1 {
      CommaShape(DumpsMembers(members[1..]), rest);
    } else {
      CloseShape(rest);
    }
  }

  lemma CommaShape(d: string, rest: string)
    ensures var after := ", " + d + "}" + rest;
      Delimited(after) && |after| >= 2 && after[0] == ',' && after[..2] == ", " && after[2..] == d + "}" + rest
  {
    var after := ", " + d + "}" + rest;
    assert after[2..] == d + "}" + rest;
  }

  lemma CloseShape(rest: string)
    ensures var after := "}" + rest;
      Delimited(after) && |after| >= 1 && after[0] == '}' && after[1..] == rest
  {
  }

  lemma MembersShape(members: seq<Member>, rest: string)
    requires |members| >= 1
    ensures var m, after := members[0], AfterFirstMember(members, rest);
      DumpsMembers(members) + "}" + rest == "\"" + Escape(m.key) + "\": " + Dumps(m.value) + after
  {
    var tail := if |members| == 1 then "" else ", " + DumpsMembers(members[1..]);
    DumpsMembersHead(members);
    assert tail + "}" + rest == AfterFirstMember(members, rest);
    RegroupAt(DumpsMembers(members), Escape(members[0].key), Dumps(members[0].value), tail, rest,
              AfterFirstMember(members, rest));
  }

  lemma RegroupAt(dm: string, k: string, d: string, tail: string, rest: string, after: string)
    requires dm == "\"" + k + "\"" + ": " + d + tail
    requires after == tail + "}" + rest
    ensures dm + "}" + rest == "\"" + k + "\": " + d + after
  {
    Regroup(k, d, tail, rest);
  }

  lemma ParseMembersUnfold(s: string, key: string, t: string, v: Value, u: string)
    requires |s| >= 1 && s[0] == '"' && ParseStringBody(s[1..]) == Some((key, t))
    requires |t| >= 2 && t[..2] == ": " && ParseValue(t[2..]) == Some((v, u))
    ensures ParseMembers(s) ==
      if |u| >= 1 && u[0] == '}' then Some(([Member(key, v)], u[1..]))
      else if |u| >= 2 && u[..2] == ", " then
        match ParseMembers(u[2..])
        case None => None
        case Some((ms, rest)) => Some(([Member(key, v)] + ms, rest))
      else None
  {
  }

  /** `ParseMembers` unfolded once, at an entry whose key and value read back. */
  lemma ParseMembersEntry(key: string, v: Value, k: string, d: string, after: string)
    requires ParseStringBody(k + "\"" + (": " + d + after)) == Some((key, ": " + d + after))
    requires ParseValue(d + after) == Some((v, after))
    ensures ParseMembers("\"" + k + "\": " + d + after) ==
      if |after| >= 1 && after[0] == '}' then Some(([Member(key, v)], after[1..]))
      else if |after| >= 2 && after[..2] == ", " then
        match ParseMembers(after[2..])
        case None => None
        case Some((ms, rest)) => Some(([Member(key, v)] + ms, rest))
      else None
  {
    EntryShape(k, d, after);
    ParseMembersUnfold("\"" + k + "\": " + d + after, key, ": " + d + after, v, after);
  }

  lemma ParseEntryLast(key: string, v: Value, k: string, d: string, rest: string)
    requires ParseStringBody(k + "\"" + (": " + d + ("}" + rest))) == Some((key, ": " + d + ("}" + rest)))
    requires ParseValue(d + ("}" + rest)) == Some((v, "}" + rest))
    ensures ParseMembers("\"" + k + "\": " + d + ("}" + rest)) == Some(([Member(key, v)], rest))
  {
    ParseMembersEntry(key, v, k, d, "}" + rest);
    assert ("}" + rest)[1..] == rest;
  }

  lemma ParseEntryNext(key: string, v: Value, k: string, d: string, u: string, ms: seq<Member>, rest: string)
    requires ParseStringBody(k + "\"" + (": " + d + (", " + u))) == Some((key, ": " + d + (", " + u)))
    requires ParseValue(d + (", " + u)) == Some((v, ", " + u))
    requires ParseMembers(u) == Some((ms, rest))
    ensures ParseMembers("\"" + k + "\": " + d + (", " + u)) == Some(([Member(key, v)] + ms, rest))
  {
    ParseMembersEntry(key, v, k, d, ", " + u);
    assert (", " + u)[..2] == ", " && (", " + u)[2..] == u;
  }

  lemma ParseDumpsOneMember(members: seq<Member>, rest: string)
    requires |members| == 1
    ensures ParseMembers(DumpsMembers(members) + "}" + rest) == Some((members, rest))
  {
    var m := members[0];
    MembersShape(members, rest);
    assert AfterFirstMember(members, rest) == "}" + rest;
    ParseEscape(m.key, ": " + Dumps(m.value) + ("}" + rest));
    ParseDumps(m.value, "}" + rest);
    ParseEntryLast(m.key, m.value, Escape(m.key), Dumps(m.value), rest);
    assert [m] == members;
  }

  /** An entry written by `json.dumps`, then `, ` and the further entries
      of the dict, which read back. */
  lemma ParseMemberThen(members: seq<Member>, u: string, rest: string, text: string)
    requires |members| >= 2
    requires text == "\"" + Escape(members[0].key) + "\": " + Dumps(members[0].value) + (", " + u)
    requires ParseMembers(u) == Some((members[1..], rest))
    ensures ParseMembers(text) == Some((members, rest))
    decreases members, 0
  {
    var m := members[0];
    ParseEscape(m.key, ": " + Dumps(m.value) + (", " + u));
    ParseDumps(m.value, ", " + u);
    ParseEntryNext(m.key, m.value, Escape(m.key), Dumps(m.value), u, members[1..], rest);
    assert [m] + members[1..] == members;
  }

  lemma ParseDumpsMoreMembers(members: seq<Member>, rest: string)
    requires |members| >= 2
    requires ParseMembers(DumpsMembers(members[1..]) + "}" + rest) == Some((members[1..], rest))
    ensures ParseMembers(DumpsMembers(members) + "}" + rest) == Some((members, rest))
    decreases members, 1
  {
    var u := DumpsMembers(members[1..]) + "}" + rest;
    MoreMembersShape(members, rest, u);
    ParseMemberThen(members, u, rest, DumpsMembers(members) + "}" + rest);
  }

  lemma MoreMembersShape(members: seq<Member>, rest: string, u: string)
    requires |members| >= 2 && u == DumpsMembers(members[1..]) + "}" + rest
    ensures DumpsMembers(members) + "}" + rest
         == "\"" + Escape(members[0].key) + "\": " + Dumps(members[0].value) + (", " + u)
  {
    var d1 := DumpsMembers(members[1..]);
    DumpsMembersHead(members);
    Regroup(Escape(members[0].key), Dumps(members[0].value), ", " + d1, rest);
    TailJoin(d1, rest, u);
  }

  lemma TailJoin(d1: string, rest: string, u: string)
    requires u == d1 + "}" + rest
    ensures (", " + d1) + "}" + rest == ", " + u
  {
  }

  lemma {:induction false} ParseDumpsMembers(members: seq<Member>, rest: string)
    requires |members| >= 1
    ensures ParseMembers(DumpsMembers(members) + "}" + rest) == Some((members, rest))
    decreases members
  {
    if |members| == 1 {
      ParseDumpsOneMember(members, rest);
    } else {
      ParseDumpsMembers(members[1..], rest);
      ParseDumpsMoreMembers(members, rest);
    }
  }

  /** `Parse` reads back every text `Dumps` writes. */
  lemma ParseRoundTrip(v: Value)
    ensures Parse(Dumps(v)) == Some(v)
  {
    ParseDumps(v, []);
    assert Dumps(v) + [] == Dumps(v);
  }

  /** Two values have the same `json.dumps` text exactly when they are equal,
      so each distinct flag value gets its own analytics key. */
  lemma DumpsInjective(a: Value, b: Value)
    ensures Dumps(a) == Dumps(b) <==> a == b
  {
    ParseRoundTrip(a);
    ParseRoundTrip(b);
  }
}
