/** UTF-8 (RFC 3629), the encoding `quote_plus` applies before percent-encoding.
    A Dafny `char` is a Unicode scalar value, so every string encodes. */
module Utf8 {
  import opened Wrappers

  type Byte = b: int | 0 <= b < 0x100

  predicate IsContinuation(b: Byte) { 0x80 <= b < 0xC0 }

  /** The one to four bytes of a scalar value, lead byte first. */
  function EncodeScalar(c: char): (bs: seq<Byte>)
    ensures 1 <= |bs| <= 4
    ensures (c as int < 0x80) == (|bs| == 1)
  {
    var n := c as int;
    if n < 0x80 then [n]
    else if n < 0x800 then [0xC0 + n / 64, 0x80 + n % 64]
    else if n < 0x1_0000 then
      var q := n / 64;
      [0xE0 + q / 64, 0x80 + q % 64, 0x80 + n % 64]
    else
      var q := n / 64;
      var q' := q / 64;
      [0xF0 + q' / 64, 0x80 + q' % 64, 0x80 + q % 64, 0x80 + n % 64]
  }

  function Encode(s: string): (bs: seq<Byte>)
    ensures |bs| >= |s|
    decreases |s|
  {
    if s == [] then [] else EncodeScalar(s[0]) + Encode(s[1..])
  }

  /** The scalar value at the front of `bs` and the number of bytes it takes.
      Overlong forms, surrogates and values above U+10FFFF are refused. */
  function DecodeScalar(bs: seq<Byte>): (r: Option<(char, nat)>)
    ensures r.Some? ==> 1 <= r.value.1 <= |bs|
  {
    if |bs| == 0 then None
    else if bs[0] < 0x80 then Some((bs[0] as char, 1))
    else if 0xC0 <= bs[0] < 0xE0 then
      if |bs| < 2 || !IsContinuation(bs[1]) then None
      else
        var n: int := (bs[0] as int - 0xC0) * 64 + (bs[1] as int - 0x80);
        if n < 0x80 then None else Some((n as char, 2))
    else if 0xE0 <= bs[0] < 0xF0 then
      if |bs| < 3 || !IsContinuation(bs[1]) || !IsContinuation(bs[2]) then None
      else
        var n: int := ((bs[0] as int - 0xE0) * 64 + (bs[1] as int - 0x80)) * 64 + (bs[2] as int - 0x80);
        if n < 0x800 || 0xD800 <= n < 0xE000 then None else Some((n as char, 3))
    else if 0xF0 <= bs[0] < 0xF8 then
      if |bs| < 4 || !IsContinuation(bs[1]) || !IsContinuation(bs[2]) || !IsContinuation(bs[3]) then None
      else
        var n: int := (((bs[0] as int - 0xF0) * 64 + (bs[1] as int - 0x80)) * 64 + (bs[2] as int - 0x80)) * 64 + (bs[3] as int - 0x80);
        if n < 0x1_0000 || n >= 0x11_0000 then None else Some((n as char, 4))
    else None
  }

  function Decode(bs: seq<Byte>): Option<string>
    decreases |bs|
  {
    if bs == [] then Some([])
    else
      var (c, k) :- DecodeScalar(bs);
      var cs :- Decode(bs[k..]);
      Some([c] + cs)
  }

  lemma DecodeEncodeScalar(c: char, rest: seq<Byte>)
    ensures DecodeScalar(EncodeScalar(c) + rest) == Some((c, |EncodeScalar(c)|))
  {
  }

  /** Decoding undoes encoding: UTF-8 loses nothing. */
  lemma {:induction false} DecodeEncode(s: string)
    ensures Decode(Encode(s)) == Some(s)
    decreases |s|
  {
    if s != [] {
      var head := EncodeScalar(s[0]);
      DecodeEncodeScalar(s[0], Encode(s[1..]));
      assert (head + Encode(s[1..]))[|head|..] == Encode(s[1..]);
      DecodeEncode(s[1..]);
      assert [s[0]] + s[1..] == s;
    }
  }

  /** Different strings have different encodings. */
  lemma EncodeInjective(s: string, t: string)
    requires Encode(s) == Encode(t)
    ensures s == t
  {
    DecodeEncode(s);
    DecodeEncode(t);
  }
}
