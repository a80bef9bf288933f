/** Unpadded base64url: section 5 of RFC 4648, as Go's RawURLEncoding reads and writes it. */
module Base64Url {
  import opened Wrappers
  import opened Utf8

  function Symbol(d: int): (c: char)
    requires 0 <= d < 64
    ensures c < 128 as char
  {
    if d < 26 then (65 + d) as char
    else if d < 52 then (71 + d) as char
    else if d < 62 then (d - 4) as char
    else if d == 62 then '-'
    else '_'
  }

  /** The symbols are the URL-safe alphabet, in its order. */
  lemma Alphabet(d: nat)
    requires d < 64
    ensures d < 26 ==> Symbol(d) as int == 'A' as int + d
    ensures 26 <= d < 52 ==> Symbol(d) as int == 'a' as int + (d - 26)
    ensures 52 <= d < 62 ==> Symbol(d) as int == '0' as int + (d - 52)
    ensures Symbol(62) == '-' && Symbol(63) == '_' && SymbolValue(Symbol(d)) == Some(d)
  {
  }

  function SymbolValue(c: char): (r: Option<int>)
    ensures r.Some? ==> 0 <= r.value < 64
  {
    if 'A' <= c <= 'Z' then Some(c as int - 65)
    else if 'a' <= c <= 'z' then Some(c as int - 71)
    else if '0' <= c <= '9' then Some(c as int + 4)
    else if c == '-' then Some(62)
    else if c == '_' then Some(63)
    else None
  }

  /** The six-bit groups of a byte string, most significant first, the last one padded with zero bits. */
  function Split(b: seq<Byte>): (v: seq<int>)
    ensures forall i :: 0 <= i < |v| ==> 0 <= v[i] < 64
    decreases |b|
  {
    if |b| == 0 then []
    else if |b| == 1 then [b[0] / 4, b[0] % 4 * 16]
    else if |b| == 2 then [b[0] / 4, b[0] % 4 * 16 + b[1] / 16, b[1] % 16 * 4]
    else [b[0] / 4, b[0] % 4 * 16 + b[1] / 16, b[1] % 16 * 4 + b[2] / 64, b[2] % 64] + Split(b[3..])
  }

  function Symbols(v: seq<int>): (s: string)
    requires forall i :: 0 <= i < |v| ==> 0 <= v[i] < 64
    ensures |s| == |v|
  {
    if v == [] then "" else [Symbol(v[0])] + Symbols(v[1..])
  }

  function Encode(b: seq<Byte>): string { Symbols(Split(b)) }

  /** Go's decoder skips line breaks anywhere in its input. */
  function DropBreaks(s: string): string {
    if s == "" then ""
    else if s[0] == '\n' || s[0] == '\r' then DropBreaks(s[1..])
    else [s[0]] + DropBreaks(s[1..])
  }

  function First(p: int, q: int): (b: Byte)
    requires 0 <= p < 64 && 0 <= q < 64
  {
    p * 4 + q / 16
  }

  function Second(q: int, r: int): (b: Byte)
    requires 0 <= q < 64 && 0 <= r < 64
  {
    q % 16 * 16 + r / 4
  }

  function Third(r: int, t: int): (b: Byte)
    requires 0 <= r < 64 && 0 <= t < 64
  {
    r % 4 * 64 + t
  }

  function Values(s: string): (r: Option<seq<int>>)
    ensures r.Some? ==> |r.value| == |s| && forall i :: 0 <= i < |s| ==> 0 <= r.value[i] < 64
  {
    if s == "" then Some([])
    else match (SymbolValue(s[0]), Values(s[1..]))
      case (Some(v), Some(rest)) => Some([v] + rest)
      case _ => None
  }

  /** Reads groups of four symbols; a last group of two or three ends the value and one alone is an
      error.  Leftover low bits are ignored, as the non-strict decoder does. */
  function Join(v: seq<int>): Option<seq<Byte>>
    requires forall i :: 0 <= i < |v| ==> 0 <= v[i] < 64
    decreases |v|
  {
    if |v| == 0 then Some([])
    else if |v| == 1 then None
    else if |v| == 2 then Some([First(v[0], v[1])])
    else if |v| == 3 then Some([First(v[0], v[1]), Second(v[1], v[2])])
    else match Join(v[4..])
      case None => None
      case Some(rest) => Some([First(v[0], v[1]), Second(v[1], v[2]), Third(v[2], v[3])] + rest)
  }

  function DecodeGroups(s: string): Option<seq<Byte>> {
    match Values(s) case None => None case Some(v) => Join(v)
  }

  function Decode(s: string): Option<seq<Byte>> { DecodeGroups(DropBreaks(s)) }

  lemma SymbolRoundTrip(d: int)
    requires 0 <= d < 64
    ensures SymbolValue(Symbol(d)) == Some(d) && Symbol(d) != '\n' && Symbol(d) != '\r'
  {}

  lemma {:induction false} ValuesOfSymbols(v: seq<int>)
    requires forall i :: 0 <= i < |v| ==> 0 <= v[i] < 64
    ensures Values(Symbols(v)) == Some(v)
  {
    if v != [] {
      SymbolRoundTrip(v[0]);
      ValuesOfSymbols(v[1..]);
      assert Symbols(v)[1..] == Symbols(v[1..]);
      assert [v[0]] + v[1..] == v;
    }
  }

  lemma BitsRejoin(x: Byte, y: Byte, z: Byte)
    ensures First(x / 4, x % 4 * 16 + y / 16) == x && First(x / 4, x % 4 * 16) == x
    ensures Second(x % 4 * 16 + y / 16, y % 16 * 4 + z / 64) == y
    ensures Second(x % 4 * 16 + y / 16, y % 16 * 4) == y
    ensures Third(y % 16 * 4 + z / 64, z % 64) == z
  {}

  lemma JoinFour(v: seq<int>, x: Byte, y: Byte, z: Byte, rest: seq<Byte>)
    requires |v| >= 4 && forall i :: 0 <= i < |v| ==> 0 <= v[i] < 64
    requires First(v[0], v[1]) == x && Second(v[1], v[2]) == y && Third(v[2], v[3]) == z
    requires Join(v[4..]) == Some(rest)
    ensures Join(v) == Some([x, y, z] + rest)
  {}

  lemma SplitFour(b: seq<Byte>)
    requires |b| >= 3
    ensures var v := Split(b);
            |v| >= 4 && v[4..] == Split(b[3..])
            && v[0] == b[0] / 4 && v[1] == b[0] % 4 * 16 + b[1] / 16
            && v[2] == b[1] % 16 * 4 + b[2] / 64 && v[3] == b[2] % 64
  {}

  lemma {:induction false} JoinSplit(b: seq<Byte>)
    ensures Join(Split(b)) == Some(b)
    decreases |b|
  {
    if |b| == 0 {
      assert b == [];
    } else if |b| == 1 {
      BitsRejoin(b[0], 0, 0);
      assert [b[0]] == b;
    } else if |b| == 2 {
      BitsRejoin(b[0], b[1], 0);
      assert [b[0], b[1]] == b;
    } else if |b| >= 3 {
      JoinSplit(b[3..]);
      SplitFour(b);
      BitsRejoin(b[0], b[1], b[2]);
      JoinFour(Split(b), b[0], b[1], b[2], b[3..]);
      assert [b[0], b[1], b[2]] + b[3..] == b;
    }
  }

  lemma {:induction false} NoBreaks(s: string)
    requires forall i :: 0 <= i < |s| ==> s[i] != '\n' && s[i] != '\r'
    ensures DropBreaks(s) == s
  {
    if s != "" { NoBreaks(s[1..]); }
  }

  /** Every symbol is ASCII and none is a line break, so a value is as many bytes as it has symbols. */
  lemma {:induction false} SymbolsShape(v: seq<int>)
    requires forall i :: 0 <= i < |v| ==> 0 <= v[i] < 64
    ensures Ascii(Symbols(v))
    ensures forall i :: 0 <= i < |v| ==> Symbols(v)[i] != '\n' && Symbols(v)[i] != '\r'
  {
    if v != [] {
      SymbolRoundTrip(v[0]);
      SymbolsShape(v[1..]);
    }
  }

  lemma RoundTrip(b: seq<Byte>)
    ensures Decode(Encode(b)) == Some(b)
  {
    SymbolsShape(Split(b));
    NoBreaks(Encode(b));
    ValuesOfSymbols(Split(b));
    JoinSplit(b);
  }

  /** n bytes become exactly ceil(4n/3) symbols, which is also the encoded value's length in bytes. */
  lemma {:induction false} EncodedLength(b: seq<Byte>)
    ensures |Encode(b)| == (4 * |b| + 2) / 3 == ByteLen(Encode(b))
  {
    SplitLength(b);
    SymbolsShape(Split(b));
    AsciiByteLen(Encode(b));
  }

  lemma {:induction false} SplitLength(b: seq<Byte>)
    ensures |Split(b)| == (4 * |b| + 2) / 3
    decreases |b|
  {
    if |b| >= 3 { SplitLength(b[3..]); }
  }
}
