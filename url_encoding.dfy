// Form encoding of the context attributes, as Python's
// `urllib.parse.urlencode` does it with its default `quote_plus`: every
// key and value is rendered with `str`, encoded as UTF-8, and each byte
// outside the unreserved set of section 2.3 of RFC 3986 is written `%XX`
// (upper-case hexadecimal), except the space, which becomes `+`.  Pairs are
// written `key=value` and joined by `&`, in the order of the dictionary.

module UrlEncoding {
  import opened Wrappers
  import Numerals
  import Utf8

  /** The bytes `quote_plus` leaves alone in Python 3.7 and later: `A-Z a-z 0-9 _ . - ~`. */
  predicate IsUnreservedByte(b: Utf8.Byte)
  {
    'A' as int <= b <= 'Z' as int || 'a' as int <= b <= 'z' as int || '0' as int <= b <= '9' as int
    || b == '_' as int || b == '.' as int || b == '-' as int || b == '~' as int
  }

  /** The characters of an encoded key or value. */
  predicate IsFormChar(c: char)
  {
    (c as int < 0x100 && IsUnreservedByte(c as int)) || c == '%' || c == '+'
  }

  predicate AllFormChars(t: string)
  {
    forall i :: 0 <= i < |t| ==> IsFormChar(t[i])
  }

  function QuoteByte(b: Utf8.Byte): (t: string)
    ensures AllFormChars(t)
    ensures IsUnreservedByte(b) ==> t == [b as char]
    ensures b == 0x20 ==> t == "+"
    ensures !IsUnreservedByte(b) && b != 0x20 ==>
              |t| == 3 && t[0] == '%' && Numerals.AllHexDigits(t[1..]) && Numerals.Hex2Value(t[1..]) == b
              && forall i :: 1 <= i < 3 ==> Numerals.InCase(t[i], true)
  {
    if IsUnreservedByte(b) then [b as char]
    else if b == 0x20 then "+"
    else
      var h := Numerals.Hex2(b, true);
      assert forall i :: 0 <= i < 2 ==> '0' <= h[i] <= '9' || 'A' <= h[i] <= 'F' || 'a' <= h[i] <= 'f';
      "%" + h
  }

  function QuoteBytes(bs: seq<Utf8.Byte>): (t: string)
    ensures AllFormChars(t)
    ensures |t| >= |bs|
  {
    if bs == [] then "" else QuoteByte(bs[0]) + QuoteBytes(bs[1..])
  }

  /** `quote_plus(s)`: no `&`, `=` or `?` can appear in the result. */
  function QuotePlus(s: string): (t: string)
    ensures AllFormChars(t)
    ensures '&' !in t && '=' !in t && '?' !in t
  {
    var t := QuoteBytes(Utf8.Encode(s));
    assert forall i :: 0 <= i < |t| ==> t[i] != '&' && t[i] != '=' && t[i] != '?';
    t
  }

  // ----- The reading direction, `unquote_plus` restricted to canonical text -----

  function UnquoteBytes(t: string): (r: Option<seq<Utf8.Byte>>)
    decreases |t|
  {
    if t == [] then Some([])
    else if t[0] == '+' then
      var rest :- UnquoteBytes(t[1..]);
      Some([0x20] + rest)
    else if t[0] == '%' then
      if |t| < 3 || !Numerals.AllHexDigits(t[1..3]) then None
      else
        var rest :- UnquoteBytes(t[3..]);
        Some([Numerals.Hex2Value(t[1..3])] + rest)
    else if t[0] as int < 0x100 && IsUnreservedByte(t[0] as int) then
      var rest :- UnquoteBytes(t[1..]);
      Some([t[0] as int] + rest)
    else None
  }

  /** The text an encoded key or value stands for. */
  function FormDecode(t: string): Option<string>
  {
    var bs :- UnquoteBytes(t);
    Utf8.Decode(bs)
  }

  lemma UnquoteQuoteByte(b: Utf8.Byte, rest: string)
    ensures UnquoteBytes(QuoteByte(b) + rest)
         == (var r := UnquoteBytes(rest); if r.None? then None else Some([b] + r.value))
  {
    var s := QuoteByte(b) + rest;
    if IsUnreservedByte(b) {
      assert s[1..] == rest;
    } else if b == 0x20 {
      assert s[1..] == rest;
    } else {
      var h := Numerals.Hex2(b, true);
      assert s == "%" + h + rest;
      assert s[1..3] == h && s[3..] == rest;
    }
  }

  lemma {:induction false} UnquoteQuoteBytes(bs: seq<Utf8.Byte>)
    ensures UnquoteBytes(QuoteBytes(bs)) == Some(bs)
  {
    if bs != [] {
      UnquoteQuoteBytes(bs[1..]);
      UnquoteQuoteByte(bs[0], QuoteBytes(bs[1..]));
      assert [bs[0]] + bs[1..] == bs;
    }
  }

  /** Encoding a key or value loses nothing: it reads back as the same text. */
  lemma FormDecodeQuotePlus(s: string)
    ensures FormDecode(QuotePlus(s)) == Some(s)
  {
    UnquoteQuoteBytes(Utf8.Encode(s));
    Utf8.DecodeEncode(s);
  }

  /** Text made of unreserved ASCII characters is its own encoding. */
  lemma {:induction false} QuotePlusUnreserved(s: string)
    requires forall i :: 0 <= i < |s| ==> s[i] as int < 0x80 && IsUnreservedByte(s[i] as int)
    ensures QuotePlus(s) == s
  {
    if s != [] {
      QuotePlusUnreserved(s[1..]);
      assert Utf8.Encode(s) == Utf8.EncodeScalar(s[0]) + Utf8.Encode(s[1..]);
      assert Utf8.EncodeScalar(s[0]) == [s[0] as int];
      assert [s[0]] + s[1..] == s;
    }
  }

  /** A single space between two words is written as `+`. */
  lemma QuotePlusTwoWords(a: string, b: string)
    ensures QuotePlus(a + " " + b)
         == QuotePlus(a) + "+" + QuotePlus(b)
  {
    Utf8EncodeAppend(a, " ");
    Utf8EncodeAppend(a + " ", b);
    QuoteBytesAppend(Utf8.Encode(a), Utf8.Encode(" "));
    QuoteBytesAppend(Utf8.Encode(a) + Utf8.Encode(" "), Utf8.Encode(b));
    assert Utf8.Encode(" ") == [0x20];
    assert QuoteBytes([0x20]) == "+";
  }

  lemma {:induction false} Utf8EncodeAppend(s: string, t: string)
    ensures Utf8.Encode(s + t) == Utf8.Encode(s) + Utf8.Encode(t)
  {
    if s != [] {
      assert (s + t)[0] == s[0] && (s + t)[1..] == s[1..] + t;
      Utf8EncodeAppend(s[1..], t);
    } else {
      assert s + t == t;
    }
  }

  lemma {:induction false} QuoteBytesAppend(x: seq<Utf8.Byte>, y: seq<Utf8.Byte>)
    ensures QuoteBytes(x + y) == QuoteBytes(x) + QuoteBytes(y)
  {
    if x != [] {
      assert (x + y)[0] == x[0] && (x + y)[1..] == x[1..] + y;
      QuoteBytesAppend(x[1..], y);
    } else {
      assert x + y == y;
    }
  }

  // ----- Attributes and `urlencode` -----

  /** The values a context attribute may hold. */
  datatype AttrValue = Text(text: string) | Number(number: int) | Flag(flag: bool)

  /** Python's `str` of an attribute value. */
  function Str(v: AttrValue): (s: string)
    ensures v.Number? ==> |s| > 0 && (s[0] == '-' <==> v.number < 0)
    ensures v.Flag? ==> |s| > 0 && s[0] == (if v.flag then 'T' else 'F')
  {
    match v
    case Text(t) => t
    case Number(n) => Numerals.IntToDecimal(n)
    case Flag(b) => if b then "True" else "False"
  }

  type Attributes = seq<(string, AttrValue)>

  /** One `key=value` pair of `urlencode`: it holds no `&` and no `?`, so the
      pairs joined by `&` stay apart and the query never reads as a path. */
  function EncodePair(key: string, value: AttrValue): (t: string)
    ensures '&' !in t && '?' !in t
  {
    var a, b := QuotePlus(key), QuotePlus(Str(value));
    NotInPair(a, b, '&');
    NotInPair(a, b, '?');
    a + "=" + b
  }

  lemma NotInPair(a: string, b: string, c: char)
    requires c !in a && c !in b && c != '='
    ensures c !in a + "=" + b
  {
    forall i | 0 <= i < |a + "=" + b|
      ensures (a + "=" + b)[i] != c
    {
      if i < |a| { assert (a + "=" + b)[i] == a[i]; }
      else if i > |a| { assert (a + "=" + b)[i] == b[i - |a| - 1]; }
    }
  }

  /** `urlencode(attrs)`: empty exactly when there are no attributes. */
  function Urlencode(attrs: Attributes): (q: string)
    ensures q == "" <==> attrs == []
    ensures '?' !in q
  {
    if attrs == [] then ""
    else if |attrs| == 1 then EncodePair(attrs[0].0, attrs[0].1)
    else EncodePair(attrs[0].0, attrs[0].1) + "&" + Urlencode(attrs[1..])
  }

  /** The key/value texts a server sees, in order. */
  function Rendered(attrs: Attributes): (pairs: seq<(string, string)>)
    ensures |pairs| == |attrs|
    ensures forall i :: 0 <= i < |attrs| ==> pairs[i] == (attrs[i].0, Str(attrs[i].1))
  {
    if attrs == [] then [] else [(attrs[0].0, Str(attrs[0].1))] + Rendered(attrs[1..])
  }

  /** The position of the first `c` in `s`, or `|s|` when there is none. */
  function Find(s: string, c: char): (i: nat)
    ensures i <= |s|
    ensures i < |s| ==> s[i] == c
    ensures forall j :: 0 <= j < i ==> s[j] != c
  {
    if s == [] then 0
    else if s[0] == c then 0
    else 1 + Find(s[1..], c)
  }

  lemma {:induction false} FindSeparator(a: string, c: char, rest: string)
    requires c !in a
    ensures Find(a + [c] + rest, c) == |a|
  {
    if a != [] {
      assert a[0] in a;
      assert (a + [c] + rest)[1..] == a[1..] + [c] + rest;
      FindSeparator(a[1..], c, rest);
    }
  }

  lemma FindAbsent(a: string, c: char)
    requires c !in a
    ensures Find(a, c) == |a|
  {
  }

  function DecodePair(t: string): Option<(string, string)>
  {
    var i := Find(t, '=');
    if i == |t| then None
    else
      var k :- FormDecode(t[..i]);
      var v :- FormDecode(t[i + 1..]);
      Some((k, v))
  }

  /** How a server reads a query: `&`-separated `key=value` pairs. */
  function DecodePairs(q: string): Option<seq<(string, string)>>
    decreases |q|
  {
    var i := Find(q, '&');
    var p :- DecodePair(q[..i]);
    if i == |q| then Some([p])
    else
      var rest :- DecodePairs(q[i + 1..]);
      Some([p] + rest)
  }

  lemma DecodeEncodePair(key: string, value: AttrValue)
    ensures DecodePair(EncodePair(key, value)) == Some((key, Str(value)))
  {
    var a, b := QuotePlus(key), QuotePlus(Str(value));
    var t := EncodePair(key, value);
    FindSeparator(a, '=', b);
    assert t[..|a|] == a && t[|a| + 1..] == b;
    FormDecodeQuotePlus(key);
    FormDecodeQuotePlus(Str(value));
  }

  lemma DecodePairsLast(e: string)
    requires '&' !in e
    ensures DecodePairs(e) == (var p := DecodePair(e); if p.None? then None else Some([p.value]))
  {
    FindAbsent(e, '&');
    assert e[..|e|] == e;
  }

  lemma DecodePairsNext(e: string, rest: string)
    requires '&' !in e
    ensures DecodePairs(e + "&" + rest)
         == (var p := DecodePair(e); var r := DecodePairs(rest);
             if p.None? || r.None? then None else Some([p.value] + r.value))
  {
    var q := e + "&" + rest;
    FindSeparator(e, '&', rest);
    assert q[..|e|] == e && q[|e| + 1..] == rest;
  }

  /** A server reading the query back recovers every attribute, rendered
      with `str`, in order. */
  lemma {:induction false} DecodeUrlencode(attrs: Attributes)
    requires attrs != []
    ensures DecodePairs(Urlencode(attrs)) == Some(Rendered(attrs))
  {
    var e := EncodePair(attrs[0].0, attrs[0].1);
    DecodeEncodePair(attrs[0].0, attrs[0].1);
    if |attrs| == 1 {
      assert Urlencode(attrs) == e;
      assert Rendered(attrs) == [(attrs[0].0, Str(attrs[0].1))] by {
        assert attrs[1..] == [];
      }
      DecodePairsLast(e);
    } else {
      DecodePairsNext(e, Urlencode(attrs[1..]));
      DecodeUrlencode(attrs[1..]);
    }
  }
}
