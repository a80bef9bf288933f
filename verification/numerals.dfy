/** Numbers as this program has them: 64 bits wide, and written in decimal (strconv, encoding/json) or in
    fixed-width hexadecimal. */
module Numerals {
  import opened Wrappers

  type Int64 = x: int | -0x8000_0000_0000_0000 <= x < 0x8000_0000_0000_0000
  type UInt64 = x: int | 0 <= x < 0x1_0000_0000_0000_0000

  predicate IsInt64(n: int) { -0x8000_0000_0000_0000 <= n < 0x8000_0000_0000_0000 }

  /** What is left of a result in 64 bits, signed and unsigned. */
  function Wrap64(x: int): (w: Int64)
    ensures IsInt64(x) ==> w == x
  {
    var m := x % 0x1_0000_0000_0000_0000;
    if m < 0x8000_0000_0000_0000 then m else m - 0x1_0000_0000_0000_0000
  }

  function WrapU64(x: int): (w: UInt64)
    ensures 0 <= x < 0x1_0000_0000_0000_0000 ==> w == x
  {
    x % 0x1_0000_0000_0000_0000
  }

  predicate IsDigit(c: char) { '0' <= c <= '9' }

  function DigitChar(d: int): (c: char)
    requires 0 <= d < 10
    ensures IsDigit(c)
  {
    (48 + d) as char
  }

  function Decimal(n: nat): (s: string)
    ensures |s| >= 1
  {
    if n < 10 then [DigitChar(n)] else Decimal(n / 10) + [DigitChar(n % 10)]
  }

  /** Reads decimal digits greedily after the digits already folded into `acc`. */
  function ReadDigits(acc: nat, s: string): (nat, string)
    decreases |s|
  {
    if s != "" && IsDigit(s[0]) then ReadDigits(acc * 10 + (s[0] as int - 48), s[1..]) else (acc, s)
  }

  lemma {:induction false} ReadDecimal(n: nat, rest: string)
    ensures ReadDigits(0, Decimal(n) + rest) == ReadDigits(n, rest)
  {
    if n >= 10 {
      var d := DigitChar(n % 10);
      assert Decimal(n) + rest == Decimal(n / 10) + ([d] + rest);
      ReadDecimal(n / 10, [d] + rest);
      assert ([d] + rest)[1..] == rest;
    } else {
      assert (Decimal(n) + rest)[1..] == rest;
    }
  }

  lemma DecimalInjective(m: nat, n: nat)
    requires Decimal(m) == Decimal(n)
    ensures m == n
  {
    ReadDecimal(m, "");
    ReadDecimal(n, "");
  }

  lemma {:induction false} DecimalIsDigits(n: nat)
    ensures forall i :: 0 <= i < |Decimal(n)| ==> IsDigit(Decimal(n)[i])
  {
    if n >= 10 { DecimalIsDigits(n / 10); }
  }

  function HexChar(d: int): (c: char)
    requires 0 <= d < 16
    ensures c < 128 as char
  {
    if d < 10 then (48 + d) as char else (87 + d) as char
  }

  function HexValue(c: char): (r: Option<int>)
    ensures r.Some? ==> 0 <= r.value < 16
  {
    if '0' <= c <= '9' then Some(c as int - 48)
    else if 'a' <= c <= 'f' then Some(c as int - 87)
    else None
  }

  function Pow16(k: nat): (p: nat)
    ensures p >= 1
  {
    if k == 0 then 1 else 16 * Pow16(k - 1)
  }

  /** The low `digits` hexadecimal digits of `n`, most significant first, padded with zeros. */
  function Hex(n: nat, digits: nat): (s: string)
    ensures |s| == digits
  {
    if digits == 0 then "" else Hex(n / 16, digits - 1) + [HexChar(n % 16)]
  }

  function ReadHex(s: string): Option<nat> {
    if s == "" then Some(0)
    else match (ReadHex(s[..|s| - 1]), HexValue(s[|s| - 1]))
      case (Some(high), Some(low)) => Some(high * 16 + low)
      case _ => None
  }

  lemma {:induction false} ReadWrittenHex(n: nat, digits: nat)
    requires n < Pow16(digits)
    ensures ReadHex(Hex(n, digits)) == Some(n)
  {
    if digits > 0 {
      assert n / 16 < Pow16(digits - 1);
      ReadWrittenHex(n / 16, digits - 1);
      assert Hex(n, digits)[..digits - 1] == Hex(n / 16, digits - 1);
    }
  }

  lemma {:induction false} HexIsAscii(n: nat, digits: nat)
    ensures forall i :: 0 <= i < digits ==> Hex(n, digits)[i] < 128 as char
  {
    if digits > 0 { HexIsAscii(n / 16, digits - 1); }
  }
}
