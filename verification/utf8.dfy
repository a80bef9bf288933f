/** UTF-8 as section 3 of RFC 3629 defines it.  A Dafny `char` is a Unicode scalar value, so a `string`
    is exactly what Go calls valid UTF-8 text. */
module Utf8 {
  import opened Wrappers

  type Byte = x: int | 0 <= x < 256

  /** The number of bytes one scalar value takes. */
  function CharLen(c: char): (n: nat)
    ensures 1 <= n <= 4
  {
    var x := c as int;
    if x < 0x80 then 1 else if x < 0x800 then 2 else if x < 0x1_0000 then 3 else 4
  }

  function ByteLen(s: string): nat {
    if s == "" then 0 else CharLen(s[0]) + ByteLen(s[1..])
  }

  function EncodeChar(c: char): (b: seq<Byte>)
    ensures |b| == CharLen(c)
  {
    var x := c as int;
    if x < 0x80 then [x]
    else if x < 0x800 then [0xC0 + x / 64, 0x80 + x % 64]
    else if x < 0x1_0000 then [0xE0 + x / 4096, 0x80 + x / 64 % 64, 0x80 + x % 64]
    else [0xF0 + x / 0x4_0000, 0x80 + x / 4096 % 64, 0x80 + x / 64 % 64, 0x80 + x % 64]
  }

  function Encode(s: string): seq<Byte> {
    if s == "" then [] else EncodeChar(s[0]) + Encode(s[1..])
  }

  predicate IsTail(b: Byte) { 0x80 <= b < 0xC0 }

  predicate IsScalar(x: int) { 0 <= x < 0xD800 || 0xE000 <= x < 0x11_0000 }

  function Join2(a: int, b: int): int { (a - 0xC0) * 64 + (b - 0x80) }

  function Join3(a: int, b: int, c: int): int { (a - 0xE0) * 4096 + (b - 0x80) * 64 + (c - 0x80) }

  function Join4(a: int, b: int, c: int, d: int): int {
    (a - 0xF0) * 0x4_0000 + (b - 0x80) * 4096 + (c - 0x80) * 64 + (d - 0x80)
  }

  /** Reads one scalar value: shortest form only, no surrogates, nothing above U+10FFFF. */
  function DecodeChar(b: seq<Byte>): (r: Option<char>)
    ensures r.Some? ==> CharLen(r.value) <= |b|
  {
    if |b| == 0 then None
    else if b[0] < 0x80 then Some(b[0] as char)
    else if 0xC2 <= b[0] < 0xE0 && |b| >= 2 && IsTail(b[1]) then Some(Join2(b[0], b[1]) as char)
    else if 0xE0 <= b[0] < 0xF0 && |b| >= 3 && IsTail(b[1]) && IsTail(b[2]) then
      var x := Join3(b[0], b[1], b[2]);
      if x >= 0x800 && IsScalar(x) then Some(x as char) else None
    else if 0xF0 <= b[0] < 0xF5 && |b| >= 4 && IsTail(b[1]) && IsTail(b[2]) && IsTail(b[3]) then
      var x := Join4(b[0], b[1], b[2], b[3]);
      if x >= 0x1_0000 && IsScalar(x) then Some(x as char) else None
    else None
  }

  function Decode(b: seq<Byte>): Option<string>
    decreases |b|
  {
    if b == [] then Some("")
    else match DecodeChar(b)
      case None => None
      case Some(c) =>
        match Decode(b[CharLen(c)..])
        case None => None
        case Some(rest) => Some([c] + rest)
  }

  /** Base-64 digits of a number below 2^24 put it back together. */
  lemma Digits64(x: nat)
    ensures x == x / 64 * 64 + x % 64
    ensures x / 4096 == x / 64 / 64 && x / 0x4_0000 == x / 64 / 64 / 64
    ensures x / 64 == x / 4096 * 64 + x / 64 % 64
    ensures x / 4096 == x / 0x4_0000 * 64 + x / 4096 % 64
  {
    assert x / 4096 == x / 64 / 64;
    assert x / 0x4_0000 == x / 4096 / 64;
  }

  lemma DecodeEncodedChar(c: char, rest: seq<Byte>)
    ensures DecodeChar(EncodeChar(c) + rest) == Some(c)
  {
    var x := c as int;
    var e := EncodeChar(c);
    var b := e + rest;
    Digits64(x);
    assert b[0] == e[0];
    if x < 0x80 {
    } else if x < 0x800 {
      assert b[1] == e[1];
      assert Join2(e[0], e[1]) == x;
    } else if x < 0x1_0000 {
      assert b[1] == e[1] && b[2] == e[2];
      assert Join3(e[0], e[1], e[2]) == x;
    } else {
      assert b[1] == e[1] && b[2] == e[2] && b[3] == e[3];
      assert Join4(e[0], e[1], e[2], e[3]) == x;
    }
  }

  lemma {:induction false} RoundTrip(s: string)
    ensures Decode(Encode(s)) == Some(s)
  {
    if s != "" {
      DecodeEncodedChar(s[0], Encode(s[1..]));
      assert Encode(s)[CharLen(s[0])..] == Encode(s[1..]);
      RoundTrip(s[1..]);
      assert [s[0]] + s[1..] == s;
    }
  }

  lemma {:induction false} EncodeLength(s: string)
    ensures |Encode(s)| == ByteLen(s)
  {
    if s != "" { EncodeLength(s[1..]); }
  }

  lemma {:induction false} ByteLenAppend(s: string, t: string)
    ensures ByteLen(s + t) == ByteLen(s) + ByteLen(t)
  {
    if s == "" {
      assert s + t == t;
    } else {
      assert (s + t)[1..] == s[1..] + t;
      ByteLenAppend(s[1..], t);
    }
  }

  lemma {:induction false} ByteLenAtLeastLength(s: string)
    ensures |s| <= ByteLen(s)
  {
    if s != "" { ByteLenAtLeastLength(s[1..]); }
  }

  predicate Ascii(s: string) { forall i :: 0 <= i < |s| ==> s[i] < 128 as char }

  lemma {:induction false} AsciiByteLen(s: string)
    requires Ascii(s)
    ensures ByteLen(s) == |s|
  {
    if s != "" { AsciiByteLen(s[1..]); }
  }
}
